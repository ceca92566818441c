/** Any number of lock and unlock batches as concurrent transactions that take row locks statement by statement. */
module LockProtocol {
  import opened ByteStrings
  import opened LockStore

  type TxnId = nat

  datatype Phase = Running | Selecting | Committed | Aborted

  datatype Kind = LockBatch(now: int) | UnlockBatch(validate: bool)

  /** A transaction over its canonical list of resources, with its uncommitted inserts and deletes. */
  datatype Txn = Txn(
    kind: Kind, owner: Owner, repository: Repository, resources: seq<Resource>,
    next: nat, inserts: map<Key, Row>, deletes: set<Key>, phase: Phase)

  datatype State = State(table: Table, txns: seq<Txn>)

  datatype Event =
    | Start(kind: Kind, owner: Owner, repository: Repository, requested: seq<Resource>)
    | Statement(id: TxnId)     // the insert or delete for the next resource
    | SelectOwner(id: TxnId)   // after an insert that found a row
    | Commit(id: TxnId)
    | Abort(id: TxnId)

  predicate Active(t: Txn) {
    t.phase == Running || t.phase == Selecting
  }

  /** The transaction holds the row lock of a key it has inserted or deleted, until it ends. */
  predicate Holds(t: Txn, k: Key) {
    Active(t) && (k in t.inserts || k in t.deletes)
  }

  predicate AtStatement(t: Txn) {
    t.phase == Running && t.next < |t.resources|
  }

  function CurrentKey(t: Txn): Key
    requires t.next < |t.resources|
  {
    KeyOf(t.repository, t.resources[t.next])
  }

  /** The committed row is one the delete's condition selects and the transaction has not deleted itself. */
  predicate Deletable(table: Table, t: Txn, k: Key) {
    k in table && k !in t.deletes && (t.kind.UnlockBatch? && t.kind.validate ==> table[k].owner == t.owner)
  }

  /** `t`'s next statement has to wait for `u`: an insert for any uncommitted change of its key, a delete for the
      uncommitted delete of a row it selects; an uncommitted insert is invisible to a delete. */
  predicate Blocks(table: Table, u: Txn, t: Txn)
    requires AtStatement(t)
  {
    var k := CurrentKey(t);
    if t.kind.LockBatch? then Holds(u, k) else Active(u) && k in u.deletes && Deletable(table, t, k)
  }

  predicate WaitsFor(s: State, i: TxnId, j: TxnId) {
    i < |s.txns| && j < |s.txns| && i != j && AtStatement(s.txns[i]) && Blocks(s.table, s.txns[j], s.txns[i])
  }

  predicate Unblocked(s: State, i: TxnId) {
    forall j :: 0 <= j < |s.txns| ==> !WaitsFor(s, i, j)
  }

  predicate Enabled(s: State, e: Event) {
    match e
    case Start(_, _, _, _) => true
    case Statement(id) => id < |s.txns| && AtStatement(s.txns[id]) && Unblocked(s, id)
    case SelectOwner(id) => id < |s.txns| && s.txns[id].phase == Selecting && s.txns[id].next < |s.txns[id].resources|
    case Commit(id) => id < |s.txns| && s.txns[id].phase == Running && s.txns[id].next == |s.txns[id].resources|
    case Abort(id) => id < |s.txns| && Active(s.txns[id])
  }

  function AfterStatement(table: Table, t: Txn): Txn
    requires AtStatement(t)
  {
    var k := CurrentKey(t);
    match t.kind
    case LockBatch(now) =>
      if k in table || k in t.inserts then t.(phase := Selecting)
      else t.(inserts := t.inserts[k := Row(t.owner, t.resources[t.next].description, now)], next := t.next + 1)
    case UnlockBatch(validate) =>
      if Deletable(table, t, k) then t.(deletes := t.deletes + {k}, next := t.next + 1)
      else if validate then t.(phase := Aborted)
      else t.(next := t.next + 1)
  }

  /** The owner is read from a fresh snapshot: a row of the caller is skipped, any other or a vanished one rolls back.
      */
  function AfterSelect(table: Table, t: Txn): Txn
    requires t.next < |t.resources|
  {
    var k := CurrentKey(t);
    if k in t.inserts || (k in table && table[k].owner == t.owner)
    then t.(phase := Running, next := t.next + 1)
    else t.(phase := Aborted)
  }

  function After(s: State, e: Event): State
    requires Enabled(s, e)
  {
    match e
    case Start(kind, owner, repository, requested) =>
      s.(txns := s.txns + [Txn(kind, owner, repository, SortDedup(requested), 0, map[], {}, Running)])
    case Statement(id) => s.(txns := s.txns[id := AfterStatement(s.table, s.txns[id])])
    case SelectOwner(id) => s.(txns := s.txns[id := AfterSelect(s.table, s.txns[id])])
    case Commit(id) =>
      var t := s.txns[id];
      State((s.table + t.inserts) - t.deletes, s.txns[id := t.(phase := Committed)])
    case Abort(id) => s.(txns := s.txns[id := s.txns[id].(phase := Aborted)])
  }

  ghost predicate IsRun(states: seq<State>, events: seq<Event>) {
    && |states| == |events| + 1
    && states[0] == State(map[], [])
    && forall i :: 0 <= i < |events| ==> Enabled(states[i], events[i]) && states[i + 1] == After(states[i], events[i])
  }

  // ---------------------------------------------------------------------------
  // What every reachable state satisfies
  // ---------------------------------------------------------------------------

  /** Every key held belongs to a resource already passed. */
  ghost predicate HeldArePassed(t: Txn) {
    && t.next <= |t.resources|
    && (t.phase == Selecting ==> t.next < |t.resources|)
    && forall k :: k in t.inserts || k in t.deletes ==>
      exists m :: 0 <= m < t.next && k == KeyOf(t.repository, t.resources[m])
  }

  /** An uncommitted insert has its key to itself; an uncommitted delete has its row still in the table. */
  predicate PendingFits(table: Table, t: Txn) {
    Active(t) ==>
      && (forall k :: k in t.inserts ==> k !in table && t.inserts[k].owner == t.owner)
      && (forall k :: k in t.deletes ==> k in table)
      && (t.kind.UnlockBatch? && t.kind.validate ==> forall k :: k in t.deletes ==> table[k].owner == t.owner)
      && (t.kind.LockBatch? ==> t.deletes == {})
      && (t.kind.UnlockBatch? ==> t.inserts == map[])
  }

  ghost predicate Exclusive(s: State) {
    forall i, j, k :: 0 <= i < |s.txns| && 0 <= j < |s.txns| && i != j && Holds(s.txns[i], k) ==> !Holds(s.txns[j], k)
  }

  ghost predicate Sound(s: State) {
    && (forall i :: 0 <= i < |s.txns| ==>
          Ordered(s.txns[i].resources) && HeldArePassed(s.txns[i]) && PendingFits(s.table, s.txns[i]))
    && Exclusive(s)
  }

  lemma OneHolder(s: State, i: TxnId, j: TxnId, k: Key)
    requires Sound(s) && i < |s.txns| && j < |s.txns| && i != j && Holds(s.txns[i], k)
    ensures !Holds(s.txns[j], k)
  {
  }

  lemma StatementKeepsPassed(table: Table, t: Txn)
    requires AtStatement(t) && HeldArePassed(t)
    ensures HeldArePassed(AfterStatement(table, t))
    ensures forall k :: Holds(AfterStatement(table, t), k) ==> Holds(t, k) || k == CurrentKey(t)
  {
  }

  /** A statement that takes a row lock finds it free. */
  lemma StatementFindsLockFree(s: State, id: TxnId, j: TxnId, k: Key)
    requires Sound(s) && Enabled(s, Statement(id)) && j < |s.txns| && j != id
    requires Holds(AfterStatement(s.table, s.txns[id]), k)
    ensures !Holds(s.txns[j], k)
  {
    var t := s.txns[id];
    StatementKeepsPassed(s.table, t);
    if Holds(t, k) {
      OneHolder(s, id, j, k);
    } else {
      assert !WaitsFor(s, id, j);
      assert PendingFits(s.table, s.txns[j]);
    }
  }

  lemma StepStaysExclusive(s: State, e: Event)
    requires Sound(s) && Enabled(s, e)
    ensures Exclusive(After(s, e))
  {
    var u := After(s, e);
    forall i, j, k | 0 <= i < |u.txns| && 0 <= j < |u.txns| && i != j && Holds(u.txns[i], k)
      ensures !Holds(u.txns[j], k)
    {
      if i < |s.txns| && j < |s.txns| {
        if e.Statement? && i == e.id {
          StatementFindsLockFree(s, i, j, k);
        } else if e.Statement? && j == e.id {
          if Holds(u.txns[j], k) {
            StatementFindsLockFree(s, j, i, k);
          }
        } else {
          assert Holds(s.txns[i], k);
          assert !Holds(s.txns[j], k);
        }
      }
    }
  }

  lemma CommitKeepsPendingFitting(s: State, id: TxnId, j: TxnId)
    requires Sound(s) && Enabled(s, Commit(id)) && j < |s.txns| && j != id
    ensures PendingFits(After(s, Commit(id)).table, s.txns[j])
  {
    var t, u := s.txns[id], s.txns[j];
    assert PendingFits(s.table, t) && PendingFits(s.table, u);
    if Active(u) {
      forall k | k in u.inserts || k in u.deletes
        ensures k !in t.inserts && k !in t.deletes
      {
        OneHolder(s, j, id, k);
      }
    }
  }

  lemma StepKeepsPassed(s: State, e: Event, i: TxnId)
    requires Sound(s) && Enabled(s, e) && i < |After(s, e).txns|
    ensures Ordered(After(s, e).txns[i].resources) && HeldArePassed(After(s, e).txns[i])
  {
    if e.Start? && i == |s.txns| {
      SortDedupOrdered(e.requested);
    } else {
      assert HeldArePassed(s.txns[i]);
      if e.Statement? && i == e.id {
        StatementKeepsPassed(s.table, s.txns[i]);
      }
    }
  }

  lemma StepKeepsPendingFitting(s: State, e: Event, i: TxnId)
    requires Sound(s) && Enabled(s, e) && i < |After(s, e).txns|
    ensures PendingFits(After(s, e).table, After(s, e).txns[i])
  {
    if i < |s.txns| {
      assert PendingFits(s.table, s.txns[i]);
      if e.Commit? && i != e.id {
        CommitKeepsPendingFitting(s, e.id, i);
      }
    }
  }

  lemma StepStaysSound(s: State, e: Event)
    requires Sound(s) && Enabled(s, e)
    ensures Sound(After(s, e))
  {
    var u := After(s, e);
    StepStaysExclusive(s, e);
    forall i | 0 <= i < |u.txns|
      ensures Ordered(u.txns[i].resources) && HeldArePassed(u.txns[i]) && PendingFits(u.table, u.txns[i])
    {
      StepKeepsPassed(s, e, i);
      StepKeepsPendingFitting(s, e, i);
    }
  }

  lemma {:induction false} RunsStaySound(states: seq<State>, events: seq<Event>, n: nat)
    requires IsRun(states, events) && n < |states|
    ensures Sound(states[n])
  {
    if n > 0 {
      RunsStaySound(states, events, n - 1);
      StepStaysSound(states[n - 1], events[n - 1]);
    }
  }

  // ---------------------------------------------------------------------------
  // Deadlock freedom
  // ---------------------------------------------------------------------------

  predicate KeyBefore(a: Key, b: Key) {
    a.repository == b.repository && (Before(a.branch, b.branch) || (a.branch == b.branch && Before(a.hash, b.hash)))
  }

  lemma KeyBeforeIsAnOrder(a: Key, b: Key, c: Key)
    ensures !KeyBefore(a, a)
    ensures KeyBefore(a, b) && KeyBefore(b, c) ==> KeyBefore(a, c)
  {
    BeforeTotal(a.branch, a.branch);
    BeforeTotal(a.hash, a.hash);
    if Before(a.branch, b.branch) && Before(b.branch, c.branch) {
      BeforeTransitive(a.branch, b.branch, c.branch);
    }
    if Before(a.hash, b.hash) && Before(b.hash, c.hash) {
      BeforeTransitive(a.hash, b.hash, c.hash);
    }
  }

  /** A waiting transaction waits on a key greater than every key it holds. */
  lemma WaitsAboveWhatItHolds(s: State, i: TxnId, j: TxnId, held: Key)
    requires Sound(s) && WaitsFor(s, i, j) && Holds(s.txns[i], held)
    ensures KeyBefore(held, CurrentKey(s.txns[i]))
  {
    var t := s.txns[i];
    var k := CurrentKey(t);
    assert Holds(s.txns[j], k);
    OneHolder(s, j, i, k);
    var m :| 0 <= m < t.next && held == KeyOf(t.repository, t.resources[m]);
    assert Less(t.resources[m], t.resources[t.next]);
  }

  /** So along a chain of waiting transactions the keys waited for increase. */
  lemma WaitsIncrease(s: State, i: TxnId, j: TxnId, l: TxnId)
    requires Sound(s) && WaitsFor(s, i, j) && WaitsFor(s, j, l)
    ensures KeyBefore(CurrentKey(s.txns[i]), CurrentKey(s.txns[j]))
  {
    assert Holds(s.txns[j], CurrentKey(s.txns[i]));
    WaitsAboveWhatItHolds(s, j, l, CurrentKey(s.txns[i]));
  }

  ghost predicate WaitChain(s: State, p: seq<TxnId>) {
    forall i :: 0 <= i < |p| - 1 ==> WaitsFor(s, p[i], p[i + 1])
  }

  lemma {:induction false} ChainIncreases(s: State, p: seq<TxnId>, n: nat)
    requires Sound(s) && WaitChain(s, p) && 0 < n < |p| - 1
    ensures p[0] < |s.txns| && AtStatement(s.txns[p[0]]) && p[n] < |s.txns| && AtStatement(s.txns[p[n]])
    ensures KeyBefore(CurrentKey(s.txns[p[0]]), CurrentKey(s.txns[p[n]]))
  {
    assert WaitsFor(s, p[n - 1], p[n]) && WaitsFor(s, p[n], p[n + 1]);
    WaitsIncrease(s, p[n - 1], p[n], p[n + 1]);
    if n > 1 {
      ChainIncreases(s, p, n - 1);
      KeyBeforeIsAnOrder(CurrentKey(s.txns[p[0]]), CurrentKey(s.txns[p[n - 1]]), CurrentKey(s.txns[p[n]]));
    }
  }

  /** In every reachable state the wait-for graph has no cycle. */
  lemma NoDeadlock(states: seq<State>, events: seq<Event>, n: nat, p: seq<TxnId>)
    requires IsRun(states, events) && n < |states|
    requires |p| >= 2 && p[0] == p[|p| - 1]
    ensures !WaitChain(states[n], p)
  {
    var s := states[n];
    RunsStaySound(states, events, n);
    if WaitChain(s, p) {
      assert WaitsFor(s, p[|p| - 2], p[|p| - 1]) && WaitsFor(s, p[0], p[1]);
      var last := |p| - 2;
      if last > 0 {
        ChainIncreases(s, p, last);
        WaitsIncrease(s, p[last], p[0], p[1]);
        KeyBeforeIsAnOrder(CurrentKey(s.txns[p[0]]), CurrentKey(s.txns[p[last]]), CurrentKey(s.txns[p[0]]));
      }
      assert false;
    }
  }

  function Ahead(s: State, k: Key): set<TxnId> {
    set i | 0 <= i < |s.txns| && AtStatement(s.txns[i]) && KeyBefore(k, CurrentKey(s.txns[i]))
  }

  /** From any active transaction the waits lead to one that can go on by itself. */
  lemma {:induction false} SomeoneCanGoOn(s: State, i: TxnId) returns (e: Event)
    requires Sound(s) && i < |s.txns| && Active(s.txns[i])
    ensures Enabled(s, e) && !e.Start? && !e.Abort?
    decreases if AtStatement(s.txns[i]) then Ahead(s, CurrentKey(s.txns[i])) else {}, AtStatement(s.txns[i])
  {
    var t := s.txns[i];
    assert HeldArePassed(t);
    if t.phase == Selecting {
      e := SelectOwner(i);
    } else if !AtStatement(t) {
      e := Commit(i);
    } else if Unblocked(s, i) {
      e := Statement(i);
    } else {
      var j :| 0 <= j < |s.txns| && WaitsFor(s, i, j);
      if AtStatement(s.txns[j]) && !Unblocked(s, j) {
        var l :| 0 <= l < |s.txns| && WaitsFor(s, j, l);
        WaitsIncrease(s, i, j, l);
        AheadShrinks(s, i, j);
        e := SomeoneCanGoOn(s, j);
      } else {
        assert HeldArePassed(s.txns[j]);
        e := if s.txns[j].phase == Selecting then SelectOwner(j)
          else if AtStatement(s.txns[j]) then Statement(j) else Commit(j);
      }
    }
  }

  lemma AheadShrinks(s: State, i: TxnId, j: TxnId)
    requires i < |s.txns| && j < |s.txns| && AtStatement(s.txns[i]) && AtStatement(s.txns[j])
    requires KeyBefore(CurrentKey(s.txns[i]), CurrentKey(s.txns[j]))
    ensures Ahead(s, CurrentKey(s.txns[j])) < Ahead(s, CurrentKey(s.txns[i]))
  {
    var a, b := CurrentKey(s.txns[i]), CurrentKey(s.txns[j]);
    KeyBeforeIsAnOrder(b, b, b);
    forall m | m in Ahead(s, b)
      ensures m in Ahead(s, a)
    {
      KeyBeforeIsAnOrder(a, b, CurrentKey(s.txns[m]));
    }
    assert j in Ahead(s, a) && j !in Ahead(s, b);
  }

  // ---------------------------------------------------------------------------
  // Ownership over whole runs
  // ---------------------------------------------------------------------------

  /** The step commits an unlock that removes the row of `k`; a validated one is the owner's. */
  predicate Releases(s: State, e: Event, k: Key)
    requires Enabled(s, e)
  {
    && e.Commit?
    && var t := s.txns[e.id];
       t.kind.UnlockBatch? && k in t.deletes && k in s.table && (t.kind.validate ==> s.table[k].owner == t.owner)
  }

  /** A committed row never changes, and leaves only by the commit of an unlock of its key. */
  lemma RowsOnlyLeaveByUnlock(s: State, e: Event, k: Key)
    requires Sound(s) && Enabled(s, e) && k in s.table
    ensures var u := After(s, e).table;
            if Releases(s, e, k) then k !in u else k in u && u[k] == s.table[k]
  {
    if e.Commit? {
      assert PendingFits(s.table, s.txns[e.id]);
    }
  }

  /** A row appears only by the commit of a lock batch, for that batch's owner. */
  lemma RowsOnlyAppearByLock(s: State, e: Event, k: Key)
    requires Sound(s) && Enabled(s, e) && k !in s.table && k in After(s, e).table
    ensures e.Commit? && s.txns[e.id].kind.LockBatch? && After(s, e).table[k].owner == s.txns[e.id].owner
  {
    assert PendingFits(s.table, s.txns[e.id]);
  }

  /** If a key's row is not what it was, an unlock of the old row committed in between. */
  lemma {:induction false} OwnershipPassesByUnlock(states: seq<State>, events: seq<Event>, i: nat, j: nat, k: Key)
    returns (m: nat)
    requires IsRun(states, events) && i <= j < |states| && k in states[i].table
    requires k !in states[j].table || states[j].table[k] != states[i].table[k]
    ensures i <= m < j && Releases(states[m], events[m], k) && states[m].table[k] == states[i].table[k]
    decreases j - i
  {
    RunsStaySound(states, events, i);
    RowsOnlyLeaveByUnlock(states[i], events[i], k);
    if Releases(states[i], events[i], k) {
      m := i;
    } else {
      m := OwnershipPassesByUnlock(states, events, i + 1, j, k);
    }
  }

  /** The step commits a lock batch that has inserted the row of `k` for `owner`. */
  predicate Obtains(s: State, e: Event, k: Key, owner: Owner)
    requires Enabled(s, e)
  {
    e.Commit? && k in s.txns[e.id].inserts && s.txns[e.id].owner == owner
  }

  /** An owner's row of a key comes and goes by exactly these two kinds of steps. */
  lemma OwnershipStep(s: State, e: Event, k: Key, owner: Owner)
    requires Sound(s) && Enabled(s, e)
    ensures OwnedBy(After(s, e).table, owner, k) <==>
            if OwnedBy(s.table, owner, k) then !Releases(s, e, k) else Obtains(s, e, k, owner)
  {
    if e.Commit? {
      assert PendingFits(s.table, s.txns[e.id]);
    }
  }

  /** Event `p` is the look at the owner of the row that `id` found in place of its insert of `k`. */
  predicate Skips(s: State, e: Event, id: TxnId, k: Key)
    requires Enabled(s, e)
  {
    e == SelectOwner(id) && CurrentKey(s.txns[id]) == k
  }

  /** Event `m` releases the owner's row of `k`, which is not obtained again before `n`. */
  ghost predicate ReleasedAt(states: seq<State>, events: seq<Event>, m: nat, n: nat, k: Key, owner: Owner)
    requires IsRun(states, events) && n <= |events|
  {
    && m < n && Releases(states[m], events[m], k) && OwnedBy(states[m].table, owner, k)
    && forall j :: m < j < n ==> !Obtains(states[j], events[j], k, owner)
  }

  ghost predicate ReleasedBetween(states: seq<State>, events: seq<Event>, p: nat, n: nat, k: Key, owner: Owner)
    requires IsRun(states, events) && n <= |events|
  {
    exists m: nat :: p < m && ReleasedAt(states, events, m, n, k, owner)
  }

  ghost predicate SkippedThenReleased(states: seq<State>, events: seq<Event>, n: nat, id: TxnId, k: Key, owner: Owner)
    requires IsRun(states, events) && n <= |events|
  {
    exists p :: 0 <= p < n && Skips(states[p], events[p], id, k) && ReleasedBetween(states, events, p, n, k, owner)
  }

  lemma {:induction false} OwnedThenReleased(states: seq<State>, events: seq<Event>, p: nat, n: nat, k: Key,
                                             owner: Owner)
    requires IsRun(states, events) && p < n <= |events| && !Releases(states[p], events[p], k)
    requires OwnedBy(states[p].table, owner, k) && !OwnedBy(states[n].table, owner, k)
    ensures ReleasedBetween(states, events, p, n, k, owner)
  {
    RunsStaySound(states, events, n - 1);
    OwnershipStep(states[n - 1], events[n - 1], k, owner);
    if OwnedBy(states[n - 1].table, owner, k) {
      assert ReleasedAt(states, events, n - 1, n, k, owner);
    } else {
      OwnedThenReleased(states, events, p, n - 1, k, owner);
      var m: nat :| p < m && ReleasedAt(states, events, m, n - 1, k, owner);
      assert ReleasedAt(states, events, m, n, k, owner);
    }
  }

  lemma {:induction false} StaysReleased(states: seq<State>, events: seq<Event>, m: nat, n: nat, k: Key, owner: Owner)
    requires IsRun(states, events) && m <= n <= |events| && !OwnedBy(states[m].table, owner, k)
    requires forall j :: m <= j < n ==> !Obtains(states[j], events[j], k, owner)
    ensures !OwnedBy(states[n].table, owner, k)
    decreases n
  {
    if m < n {
      StaysReleased(states, events, m, n - 1, k, owner);
      RunsStaySound(states, events, n - 1);
      OwnershipStep(states[n - 1], events[n - 1], k, owner);
    }
  }

  /** What a lock batch has passed it has inserted, or skipped as its owner's. */
  ghost predicate InsertedOrSkipped(states: seq<State>, events: seq<Event>, n: nat, id: TxnId, k: Key)
    requires IsRun(states, events) && n <= |events| && id < |states[n].txns|
  {
    || k in states[n].txns[id].inserts
    || exists p :: 0 <= p < n
         && Skips(states[p], events[p], id, k) && OwnedBy(states[p].table, states[n].txns[id].owner, k)
  }

  lemma {:induction false} PassedWereOwned(states: seq<State>, events: seq<Event>, n: nat, id: TxnId, m: nat)
    requires IsRun(states, events) && n <= |events| && id < |states[n].txns|
    requires Active(states[n].txns[id]) && states[n].txns[id].kind.LockBatch?
    requires m < states[n].txns[id].next <= |states[n].txns[id].resources|
    ensures InsertedOrSkipped(states, events, n, id,
        KeyOf(states[n].txns[id].repository, states[n].txns[id].resources[m]))
  {
    assert n > 0;
    var s, e := states[n - 1], events[n - 1];
    var k := KeyOf(states[n].txns[id].repository, states[n].txns[id].resources[m]);
    if id < |s.txns| && m < s.txns[id].next {
      PassedWereOwned(states, events, n - 1, id, m);
      if k !in s.txns[id].inserts {
        var p :| 0 <= p < n - 1 && Skips(states[p], events[p], id, k) && OwnedBy(states[p].table, s.txns[id].owner, k);
      }
    } else if k !in states[n].txns[id].inserts {
      assert Skips(s, e, id, k) && OwnedBy(s.table, s.txns[id].owner, k);
    }
  }

  /** When a lock batch commits, a resource of it is locked for its owner, exactly unless the batch skipped it and after
      that the owner's row was released and not obtained again. */
  lemma CommitLocksUnlessReleased(states: seq<State>, events: seq<Event>, n: nat, r: Resource)
    requires IsRun(states, events) && n < |events| && events[n].Commit?
    requires states[n].txns[events[n].id].kind.LockBatch? && r in states[n].txns[events[n].id].resources
    ensures
      var t := states[n].txns[events[n].id];
      var k := KeyOf(t.repository, r);
      OwnedBy(states[n + 1].table, t.owner, k) <==>
        k in t.inserts || !SkippedThenReleased(states, events, n, events[n].id, k, t.owner)
  {
    var id, t := events[n].id, states[n].txns[events[n].id];
    var k := KeyOf(t.repository, r);
    var m :| 0 <= m < |t.resources| && t.resources[m] == r;
    RunsStaySound(states, events, n);
    assert PendingFits(states[n].table, t);
    if k !in t.inserts {
      assert states[n + 1].table == (states[n].table + t.inserts) - t.deletes;
      assert OwnedBy(states[n + 1].table, t.owner, k) <==> OwnedBy(states[n].table, t.owner, k);
      if SkippedThenReleased(states, events, n, id, k, t.owner) {
        SkippedIsLost(states, events, n, id, k, t.owner);
      } else if !OwnedBy(states[n].table, t.owner, k) {
        PassedWereOwned(states, events, n, id, m);
        var p :| 0 <= p < n && Skips(states[p], events[p], id, k) && OwnedBy(states[p].table, t.owner, k);
        OwnedThenReleased(states, events, p, n, k, t.owner);
      }
    }
  }

  lemma SkippedIsLost(states: seq<State>, events: seq<Event>, n: nat, id: TxnId, k: Key, owner: Owner)
    requires IsRun(states, events) && n <= |events| && SkippedThenReleased(states, events, n, id, k, owner)
    ensures !OwnedBy(states[n].table, owner, k)
  {
    var p :| 0 <= p < n && Skips(states[p], events[p], id, k) && ReleasedBetween(states, events, p, n, k, owner);
    var m: nat :| p < m && ReleasedAt(states, events, m, n, k, owner);
    RunsStaySound(states, events, m);
    OwnershipStep(states[m], events[m], k, owner);
    StaysReleased(states, events, m + 1, n, k, owner);
  }

  /** Extend a run by one event. */
  lemma Grow(states: seq<State>, events: seq<Event>, e: Event) returns (states': seq<State>, events': seq<Event>)
    requires IsRun(states, events) && Enabled(states[|events|], e)
    ensures IsRun(states', events') && |events'| == |events| + 1 && events'[|events|] == e
    ensures states'[|events'|] == After(states[|events|], e)
    ensures states <= states' && events <= events'
  {
    states', events' := states + [After(states[|events|], e)], events + [e];
    forall i | 0 <= i < |events'|
      ensures Enabled(states'[i], events'[i]) && states'[i + 1] == After(states'[i], events'[i])
    {
      if i < |events| {
        assert states'[i] == states[i] && states'[i + 1] == states[i + 1] && events'[i] == events[i];
      }
    }
  }

  /** One uncontended batch of one resource, up to its commit. */
  lemma RunSingle(states: seq<State>, events: seq<Event>, kind: Kind, owner: Owner, repository: Repository, r: Resource)
    returns (states': seq<State>, events': seq<Event>)
    requires IsRun(states, events)
    requires forall t :: t in states[|events|].txns ==> t.inserts == map[] || !Active(t)
    requires forall t :: t in states[|events|].txns ==> t.deletes == {}
    requires
      var table, k := states[|events|].table, KeyOf(repository, r);
      if kind.LockBatch? then table == map[]
      else k in table && table.Keys == {k} && table[k].owner == owner
    ensures IsRun(states', events')
    ensures
      var s, t, k := states[|events|], states'[|events'|], KeyOf(repository, r);
      && |t.txns| == |s.txns| + 1 && t.txns[..|s.txns|] == s.txns && t.txns[|s.txns|].phase == Committed
      && t.table == (if kind.LockBatch? then map[k := Row(owner, r.description, kind.now)] else map[])
      && (kind.LockBatch? ==> t.txns[|s.txns|].deletes == {})
  {
    var id := |states[|events|].txns|;
    assert SortDedup([]) == [] && SortDedup([r]) == [r];
    states', events' := Grow(states, events, Start(kind, owner, repository, [r]));
    forall j | 0 <= j < |states'[|events'|].txns|
      ensures !WaitsFor(states'[|events'|], id, j)
    {
      assert j < id ==> states'[|events'|].txns[j] in states[|events|].txns;
    }
    states', events' := Grow(states', events', Statement(id));
    states', events' := Grow(states', events', Commit(id));
  }

  /** A run in which a batch skips a row because its owner holds it, the owner unlocks it, and the batch then commits:
      it succeeds although the resource is not locked. */
  lemma SkipCanGoStale(owner: Owner, repository: Repository, r: Resource)
    returns (states: seq<State>, events: seq<Event>)
    ensures IsRun(states, events) && |events| > 0 && events[|events| - 1] == Commit(1)
    ensures
      var s := states[|events|];
      && |s.txns| == 3 && s.txns[1].kind.LockBatch? && s.txns[1].resources == [r] && s.txns[1].phase == Committed
      && s.table == map[]
  {
    var k := KeyOf(repository, r);
    assert SortDedup([]) == [] && SortDedup([r]) == [r];
    states, events := [State(map[], [])], [];
    states, events := RunSingle(states, events, LockBatch(0), owner, repository, r);
    states, events := Grow(states, events, Start(LockBatch(1), owner, repository, [r]));
    states, events := Grow(states, events, Statement(1));
    states, events := Grow(states, events, SelectOwner(1));
    ghost var skipped := states[|events|].txns[1];
    assert skipped == Txn(LockBatch(1), owner, repository, [r], 1, map[], {}, Running);
    states, events := RunSingle(states, events, UnlockBatch(true), owner, repository, r);
    assert states[|events|].txns[1] == states[|events|].txns[..2][1] == skipped;
    states, events := Grow(states, events, Commit(1));
  }
}
