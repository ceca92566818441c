/** A lock or unlock transaction that nothing interrupts does what the operation's contract says. */
module LockSchedules {
  import opened Outcomes
  import opened LockStore
  import opened LockProtocol

  /** No transaction but `id` is under way. */
  predicate Quiet(s: State, id: TxnId) {
    forall j :: 0 <= j < |s.txns| && j != id ==> !Active(s.txns[j])
  }

  /** A step of transaction `id`, and not its failure. */
  predicate Own(e: Event, id: TxnId) {
    match e
    case Start(_, _, _, _) => false
    case Statement(i) => i == id
    case SelectOwner(i) => i == id
    case Commit(i) => i == id
    case Abort(_) => false
  }

  /** Event `from` starts a transaction when no other is under way, and all events after it are that transaction's. */
  ghost predicate Alone(states: seq<State>, events: seq<Event>, from: nat, n: nat)
    requires IsRun(states, events) && from < n <= |events|
  {
    && events[from].Start? && Quiet(states[from], |states[from].txns|)
    && forall i :: from < i < n ==> Own(events[i], |states[from].txns|)
  }

  /** The transaction that `e` starts. */
  function Begun(e: Event): Txn
    requires e.Start?
  {
    Txn(e.kind, e.owner, e.repository, SortDedup(e.requested), 0, map[], {}, Running)
  }

  /** The same transaction further on. */
  predicate Same(t: Txn, u: Txn) {
    t.kind == u.kind && t.owner == u.owner && t.repository == u.repository && t.resources == u.resources
  }

  /** What one event makes of a lone transaction. */
  function Onward(table: Table, t: Txn, e: Event): Txn
    requires e.Statement? ==> AtStatement(t)
    requires e.SelectOwner? ==> t.next < |t.resources|
  {
    match e
    case Statement(_) => AfterStatement(table, t)
    case SelectOwner(_) => AfterSelect(table, t)
    case Commit(_) => t.(phase := Committed)
    case _ => t
  }

  lemma OwnStep(s: State, e: Event, others: seq<Txn>, t: Txn)
    requires Enabled(s, e) && s.txns == others + [t] && Own(e, |others|)
    ensures After(s, e).txns == others + [Onward(s.table, t, e)]
    ensures After(s, e).table == if e.Commit? then (s.table + t.inserts) - t.deletes else s.table
  {
  }

  // ---------------------------------------------------------------------------
  // Lock batches
  // ---------------------------------------------------------------------------

  ghost function Prefix(t: Txn): Request
    requires t.kind.LockBatch? && t.next <= |t.resources|
  {
    Request(t.owner, t.repository, Batch(t.resources[..t.next]), t.kind.now)
  }

  ghost predicate Inserting(table: Table, t: Txn) {
    && t.kind.LockBatch? && t.phase == Running && t.next <= |t.resources| && Ordered(t.resources) && t.deletes == {}
    && t.inserts.Keys !! table.Keys
  }

  /** A lock transaction part of the way: its inserts grant what it has passed. */
  ghost predicate HalfLocked(table: Table, t: Txn, newly: seq<LockData>) {
    && Inserting(table, t)
    && Grants(table, Prefix(t), newly, table + t.inserts)
    && !Refused(table, Prefix(t))
  }

  lemma PrefixGrows(t: Txn)
    requires t.kind.LockBatch? && t.next < |t.resources| && Ordered(t.resources)
    ensures Prefix(t.(next := t.next + 1)) == More(Prefix(t), t.resources[t.next])
    ensures forall r :: r in Prefix(t).resources ==> Less(r, t.resources[t.next])
  {
    assert t.resources[..t.next + 1] == t.resources[..t.next] + [t.resources[t.next]];
  }

  function Passed(table: Table, t: Txn): Txn
    requires AtStatement(t) && t.kind.LockBatch?
  {
    var k, r := CurrentKey(t), t.resources[t.next];
    var row := Row(t.owner, r.description, t.kind.now);
    t.(next := t.next + 1, inserts := if k in table || k in t.inserts then t.inserts else t.inserts[k := row])
  }

  lemma InsertingStep(table: Table, t: Txn)
    requires Inserting(table, t) && AtStatement(t)
    ensures Inserting(table, Passed(table, t))
    ensures Prefix(Passed(table, t)) == More(Prefix(t), t.resources[t.next])
    ensures
      var mid, k := table + t.inserts, CurrentKey(t);
      table + Passed(table, t).inserts == if k in mid then mid else mid[k := RowFor(Prefix(t), t.resources[t.next])]
  {
    PrefixGrows(t);
  }

  /** Passing a resource whose row is free or the caller's own. */
  lemma HalfLockedStep(table: Table, t: Txn, newly: seq<LockData>) returns (newly': seq<LockData>)
    requires HalfLocked(table, t, newly) && AtStatement(t)
    requires CurrentKey(t) in table ==> table[CurrentKey(t)].owner == t.owner
    ensures HalfLocked(table, Passed(table, t), newly')
  {
    var q, r := Prefix(t), t.resources[t.next];
    InsertingStep(table, t);
    PrefixGrows(t);
    StillNotRefused(table, q, r);
    GrantStep(table, q, newly, table + t.inserts, r);
    newly' := if CurrentKey(t) in table + t.inserts then newly else newly + [DataFor(q, r)];
  }

  ghost function Asked(t: Txn): Request
    requires t.kind.LockBatch?
  {
    Request(t.owner, t.repository, Batch(t.resources), t.kind.now)
  }

  /** How far a lone lock transaction that found `rows` has got. */
  ghost predicate LockProgress(rows: Table, table: Table, t: Txn, newly: seq<LockData>) {
    match t.phase
    case Running => table == rows && HalfLocked(rows, t, newly)
    case Selecting =>
      && table == rows && HalfLocked(rows, t.(phase := Running), newly) && t.next < |t.resources|
      && (CurrentKey(t) in rows || CurrentKey(t) in t.inserts)
    case Committed => t.kind.LockBatch? && Locks(rows, Asked(t), Ok(newly), table)
    case Aborted => t.kind.LockBatch? && Locks(rows, Asked(t), Err(LockNotOwned), table)
  }

  lemma RefusalsRefuse(table: Table, t: Txn)
    requires t.next < |t.resources| && t.kind.LockBatch?
    requires CurrentKey(t) in table && table[CurrentKey(t)].owner != t.owner
    ensures Refused(table, Asked(t))
  {
    assert t.resources[t.next] in Batch(t.resources);
  }

  lemma LockStep(s: State, e: Event, rows: Table, others: seq<Txn>, t: Txn, newly: seq<LockData>)
    returns (newly': seq<LockData>)
    requires Enabled(s, e) && s.txns == others + [t] && Own(e, |others|) && LockProgress(rows, s.table, t, newly)
    ensures LockProgress(rows, After(s, e).table, Onward(s.table, t, e), newly')
  {
    OwnStep(s, e, others, t);
    newly' := newly;
    match e
    case Statement(_) =>
      if CurrentKey(t) !in rows && CurrentKey(t) !in t.inserts {
        newly' := HalfLockedStep(rows, t, newly);
      }
    case SelectOwner(_) =>
      if CurrentKey(t) in t.inserts || rows[CurrentKey(t)].owner == t.owner {
        newly' := HalfLockedStep(rows, t.(phase := Running), newly);
      } else {
        RefusalsRefuse(rows, t);
      }
    case Commit(_) =>
      assert t.resources[..t.next] == t.resources;
  }

  lemma {:induction false} LockProgresses(states: seq<State>, events: seq<Event>, from: nat, n: nat)
    returns (t: Txn, newly: seq<LockData>)
    requires IsRun(states, events) && from < n <= |events| && Alone(states, events, from, n)
    requires events[from].kind.LockBatch?
    ensures states[n].txns == states[from].txns + [t] && Same(Begun(events[from]), t)
    ensures LockProgress(states[from].table, states[n].table, t, newly)
  {
    var rows, others := states[from].table, states[from].txns;
    if n == from + 1 {
      t, newly := Begun(events[from]), [];
      SortDedupOrdered(events[from].requested);
      GrantNothing(rows, Prefix(t));
      assert rows + t.inserts == rows;
    } else {
      t, newly := LockProgresses(states, events, from, n - 1);
      newly := LockStep(states[n - 1], events[n - 1], rows, others, t, newly);
      OwnStep(states[n - 1], events[n - 1], others, t);
      t := Onward(rows, t, events[n - 1]);
    }
  }

  /** Every run in which a lock transaction starts with no other under way, and only it moves after that, leaves the
      table as it was until the transaction ends, and then meets the contract of the operation. */
  lemma LockRunsAlone(states: seq<State>, events: seq<Event>, from: nat, n: nat)
    returns (t: Txn, result: LockResult<seq<LockData>>)
    requires IsRun(states, events) && from < n <= |events| && Alone(states, events, from, n)
    requires events[from].kind.LockBatch?
    ensures states[n].txns == states[from].txns + [t]
    ensures
      var e, rows := events[from], states[from].table;
      if Active(t) then states[n].table == rows
      else
        && (result.Ok? <==> t.phase == Committed)
        && Locks(rows, Request(e.owner, e.repository, Batch(e.requested), e.kind.now), result, states[n].table)
  {
    var newly;
    t, newly := LockProgresses(states, events, from, n);
    result := if t.phase == Committed then Ok(newly) else Err(LockNotOwned);
    assert Batch(t.resources) == Batch(events[from].requested);
  }

  // ---------------------------------------------------------------------------
  // Unlock batches
  // ---------------------------------------------------------------------------

  /** An unlock transaction part of the way: it has deleted the rows of all it has passed. */
  ghost predicate HalfUnlocked(table: Table, t: Txn) {
    && t.kind.UnlockBatch? && t.phase == Running && t.next <= |t.resources| && t.inserts == map[]
    && table - t.deletes == Without(table, t.repository, t.resources[..t.next])
    && (t.kind.validate ==> forall j :: 0 <= j < t.next ==> !Misses(table, t.owner, t.repository, t.resources, j))
  }

  /** The delete hits a row exactly when the resource does not miss, and otherwise there is nothing left to delete
      unless the row is somebody else's. */
  lemma HalfUnlockedStep(table: Table, t: Txn)
    requires HalfUnlocked(table, t) && AtStatement(t)
    ensures t.kind.validate ==> (Deletable(table, t, CurrentKey(t)) <==>
        !Misses(table, t.owner, t.repository, t.resources, t.next))
    ensures
      var t' := AfterStatement(table, t);
      t'.phase == Running ==> t' == t.(deletes := t'.deletes, next := t.next + 1) && HalfUnlocked(table, t')
  {
    var k, rs := CurrentKey(t), t.resources;
    assert rs[..t.next + 1] == rs[..t.next] + [rs[t.next]];
    AlreadyDeleted(table, t.repository, rs, t.next);
    assert k in Without(table, t.repository, rs[..t.next]) <==> k in table - t.deletes;
    var t' := AfterStatement(table, t);
    assert Without(table, t.repository, rs[..t.next + 1]) == Without(table, t.repository, rs[..t.next]) - {k};
    assert t'.phase == Running ==> table - t'.deletes == (table - t.deletes) - {k};
  }

  ghost predicate UnlockProgress(rows: Table, table: Table, t: Txn, result: LockResult<seq<Resource>>) {
    match t.phase
    case Running => table == rows && HalfUnlocked(rows, t)
    case Selecting => false
    case _ =>
      && t.kind.UnlockBatch? && (result.Ok? <==> t.phase == Committed)
      && Unlocks(rows, t.owner, t.kind.validate, t.repository, t.resources, result, table)
  }

  lemma UnlockStep(s: State, e: Event, rows: Table, others: seq<Txn>, t: Txn, result: LockResult<seq<Resource>>)
    returns (result': LockResult<seq<Resource>>)
    requires Enabled(s, e) && s.txns == others + [t] && Own(e, |others|) && UnlockProgress(rows, s.table, t, result)
    ensures UnlockProgress(rows, After(s, e).table, Onward(s.table, t, e), result')
  {
    OwnStep(s, e, others, t);
    result' := Ok(t.resources);
    if e.Statement? {
      HalfUnlockedStep(rows, t);
      if AfterStatement(rows, t).phase == Aborted {
        assert FirstMiss(rows, t.owner, t.repository, t.resources, t.next);
        result' := Err(MissError(rows, t.owner, CurrentKey(t)));
      }
    } else {
      assert t.resources[..t.next] == t.resources;
    }
  }

  lemma {:induction false} UnlockProgresses(states: seq<State>, events: seq<Event>, from: nat, n: nat)
    returns (t: Txn, result: LockResult<seq<Resource>>)
    requires IsRun(states, events) && from < n <= |events| && Alone(states, events, from, n)
    requires events[from].kind.UnlockBatch?
    ensures states[n].txns == states[from].txns + [t] && Same(Begun(events[from]), t)
    ensures UnlockProgress(states[from].table, states[n].table, t, result)
  {
    var rows, others := states[from].table, states[from].txns;
    if n == from + 1 {
      t, result := Begun(events[from]), Ok([]);
    } else {
      t, result := UnlockProgresses(states, events, from, n - 1);
      result := UnlockStep(states[n - 1], events[n - 1], rows, others, t, result);
      OwnStep(states[n - 1], events[n - 1], others, t);
      t := Onward(rows, t, events[n - 1]);
    }
  }

  /** Likewise an unlock transaction. */
  lemma UnlockRunsAlone(states: seq<State>, events: seq<Event>, from: nat, n: nat)
    returns (t: Txn, result: LockResult<seq<Resource>>)
    requires IsRun(states, events) && from < n <= |events| && Alone(states, events, from, n)
    requires events[from].kind.UnlockBatch?
    ensures states[n].txns == states[from].txns + [t]
    ensures
      var e, rows := events[from], states[from].table;
      if Active(t) then states[n].table == rows
      else
        && (result.Ok? <==> t.phase == Committed)
        && Unlocks(rows, e.owner, e.kind.validate, e.repository, SortDedup(e.requested), result, states[n].table)
  {
    t, result := UnlockProgresses(states, events, from, n);
  }

  // ---------------------------------------------------------------------------
  // Such runs exist
  // ---------------------------------------------------------------------------

  predicate WellPlaced(t: Txn) {
    t.next <= |t.resources| && (t.phase == Selecting ==> t.next < |t.resources|)
  }

  lemma {:induction false} GoesOnAlone(states: seq<State>, events: seq<Event>, others: seq<Txn>, t: Txn)
    returns (states': seq<State>, events': seq<Event>, t': Txn)
    requires IsRun(states, events) && states[|events|].txns == others + [t] && Quiet(states[|events|], |others|)
    requires WellPlaced(t)
    ensures IsRun(states', events') && states <= states' && events <= events'
    ensures states'[|events'|].txns == others + [t'] && !Active(t')
    ensures forall i :: |events| <= i < |events'| ==> Own(events'[i], |others|)
    decreases |t.resources| - t.next, if t.phase == Running then 1 else 0, Active(t)
  {
    var s, id := states[|events|], |others|;
    if !Active(t) {
      states', events', t' := states, events, t;
    } else {
      var e :=
        if t.phase == Selecting then SelectOwner(id)
        else if t.next < |t.resources| then Statement(id)
        else Commit(id);
      OwnStep(s, e, others, t);
      states', events' := Grow(states, events, e);
      states', events', t' := GoesOnAlone(states', events', others, Onward(s.table, t, e));
    }
  }

  /** A transaction started with no other under way can run to its end. */
  lemma BatchEndsAlone(states: seq<State>, events: seq<Event>, kind: Kind, owner: Owner, repository: Repository,
                       requested: seq<Resource>)
    returns (states': seq<State>, events': seq<Event>, t: Txn)
    requires IsRun(states, events) && Quiet(states[|events|], |states[|events|].txns|)
    ensures IsRun(states', events') && states <= states' && events <= events'
    ensures |events| < |events'| && events'[|events|] == Start(kind, owner, repository, requested)
    ensures Alone(states', events', |events|, |events'|)
    ensures states'[|events'|].txns == states[|events|].txns + [t] && !Active(t)
  {
    var e := Start(kind, owner, repository, requested);
    states', events' := Grow(states, events, e);
    states', events', t := GoesOnAlone(states', events', states[|events|].txns, Begun(e));
  }
}
