/** The immutable store's tasks sharing a bounded connection pool. */
module ImmutablePool {
  import opened ByteStrings
  import opened Outcomes
  import opened Fragments
  import opened Snapshots
  import opened StoreContract
  import opened ImmutableProtocol

  /** The two branches of a get check out connections independently; any other task has one branch. A connection kept
      past its statement is a spare one. */
  datatype Branch = Main | Existence | Row | Spare

  datatype Slot = Slot(id: TaskId, branch: Branch)

  datatype Pool = Pool(state: State, held: set<Slot>)

  /** Whether a task that a statement takes from one state to another keeps its connection until its next statement. */
  type Keeping = (Task, Task) -> bool

  /** Every statement returns its connection. */
  ghost predicate Returns(keeps: Keeping) {
    forall t, u :: !keeps(t, u)
  }

  /** The branches whose next statement runs on a pooled connection; S3 requests and joins need none. */
  function Wants(t: Task): set<Branch> {
    match t
    case PutTask(_, _, _, put) => if put.PutWriting? || put.PutDone? then {} else {Main}
    case CopyTask(_, _, copy) => if copy.CopyDone? then {} else {Main}
    case ObliterateTask(_, phase) =>
      if phase.Listing? || phase.Waiting? || phase.Deleting? || phase.ObliterateDone? then {} else {Main}
    case GetTask(_, exact, row, _) => (if exact.None? then {Existence} else {}) + (if row.None? then {Row} else {})
  }

  /** Connections are for the tables: a statement on one neither looks at the objects nor changes them, and a statement
      that needs none neither looks at the tables nor changes them. */
  lemma ConnectionsAreForTables(s: Snapshot, u: Snapshot, t: Task)
    requires CanAdvance(t) && s.forceWrite == u.forceWrite
    ensures
      if Main in Wants(t) then
        && OwnStep(s, t).0.objects == s.objects
        && (s.(objects := map[]) == u.(objects := map[]) ==>
              OwnStep(s, t).0.(objects := map[]) == OwnStep(u, t).0.(objects := map[]) &&
                OwnStep(s, t).1 == OwnStep(u, t).1)
      else
        && OwnStep(s, t).0.(objects := s.objects) == s
        && (s.objects == u.objects ==>
              OwnStep(s, t).0.objects == OwnStep(u, t).0.objects && OwnStep(s, t).1 == OwnStep(u, t).1)
  {
    assert s.(objects := map[]) == u.(objects := map[]) ==>
      s.associations == u.associations && s.metadata == u.metadata;
  }

  /** The connection an event runs on, if any. */
  function Uses(s: State, e: Event): set<Slot>
    requires Enabled(s, e)
  {
    match e
    case Advance(id) => if Main in Wants(s.tasks[id]) then {Slot(id, Main)} else {}
    case Fetch(id, read) =>
      (match read case ReadExact => {Slot(id, Existence)} case ReadRow => {Slot(id, Row)} case ReadObject => {})
    case Abort(id) => {Slot(id, Main), Slot(id, Existence), Slot(id, Row)}
    case Misread(id) => {Slot(id, Main)}
    case _ => {}
  }

  /** What it gives back: that connection, and a spare one the task still has. */
  function Frees(s: State, e: Event): set<Slot>
    requires Enabled(s, e)
  {
    Uses(s, e) + {Slot(Actor(s, e), Spare)}
  }

  function Keeps(keeps: Keeping, s: State, e: Event): set<Slot>
    requires Enabled(s, e)
  {
    if e.Advance? && Uses(s, e) != {} && keeps(s.tasks[e.id], After(s, e).tasks[e.id]) then {Slot(e.id, Spare)} else {}
  }

  datatype PoolEvent = Checkout(slot: Slot) | Run(e: Event)

  predicate PoolEnabled(size: nat, p: Pool, e: PoolEvent) {
    match e
    case Checkout(slot) =>
      && slot.id < |p.state.tasks| && slot.branch in Wants(p.state.tasks[slot.id])
      && slot !in p.held && |p.held| < size
    case Run(e) => Enabled(p.state, e) && (e.Abort? || Uses(p.state, e) <= p.held)
  }

  function PoolAfter(keeps: Keeping, size: nat, p: Pool, e: PoolEvent): Pool
    requires PoolEnabled(size, p, e)
  {
    match e
    case Checkout(slot) => p.(held := p.held + {slot})
    case Run(e) => Pool(After(p.state, e), p.held - Frees(p.state, e) + Keeps(keeps, p.state, e))
  }

  predicate ChildrenLater(s: State, id: TaskId)
    requires id < |s.tasks|
  {
    IsWaiting(s.tasks[id]) ==> forall c :: c in s.tasks[id].phase.children ==> id < c < |s.tasks|
  }

  /** A held connection belongs to a branch that is about to run a statement on it: nobody holds one while waiting
      for another task or asking for a second one. */
  ghost predicate Healthy(size: nat, p: Pool) {
    && |p.held| <= size
    && (forall slot :: slot in p.held ==> slot.id < |p.state.tasks| && slot.branch in Wants(p.state.tasks[slot.id]))
    && (forall id :: 0 <= id < |p.state.tasks| ==> ChildrenLater(p.state, id))
  }

  ghost predicate IsPoolRun(keeps: Keeping, size: nat, pools: seq<Pool>, events: seq<PoolEvent>) {
    && |pools| == |events| + 1
    && IsStart(pools[0])
    && forall i :: 0 <= i < |events| ==>
         PoolEnabled(size, pools[i], events[i]) && pools[i + 1] == PoolAfter(keeps, size, pools[i], events[i])
  }

  predicate IsStart(p: Pool) {
    && p.state.tasks == [] && p.held == {}
    && p.state.store.associations == {} && p.state.store.metadata == map[] && p.state.store.objects == map[]
  }

  // ---------------------------------------------------------------------------
  // The source's choice: every statement returns its connection
  // ---------------------------------------------------------------------------

  lemma ChildrenStayLater(s: State, e: Event, id: TaskId)
    requires Enabled(s, e) && id < |After(s, e).tasks| && (id < |s.tasks| ==> ChildrenLater(s, id))
    ensures ChildrenLater(After(s, e), id)
  {
    OthersUntouched(s, e);
  }

  lemma StepStaysHealthy(keeps: Keeping, size: nat, p: Pool, e: PoolEvent)
    requires Returns(keeps) && Healthy(size, p) && PoolEnabled(size, p, e)
    ensures Healthy(size, PoolAfter(keeps, size, p, e))
  {
    if e.Run? {
      RunStaysHealthy(size, p, e.e);
    }
  }

  lemma RunStaysHealthy(size: nat, p: Pool, e: Event)
    requires Healthy(size, p) && Enabled(p.state, e)
    ensures Healthy(size, Pool(After(p.state, e), p.held - Frees(p.state, e)))
  {
    var t, left := After(p.state, e), p.held - Frees(p.state, e);
    assert |left| <= |p.held| by {
      assert p.held == left + p.held * Frees(p.state, e);
    }
    forall id | 0 <= id < |t.tasks|
      ensures ChildrenLater(t, id)
    {
      ChildrenStayLater(p.state, e, id);
    }
    forall slot | slot in left
      ensures slot.id < |t.tasks| && slot.branch in Wants(t.tasks[slot.id])
    {
      HeldStaysWanted(p.state, e, slot);
    }
  }

  lemma HeldStaysWanted(s: State, e: Event, slot: Slot)
    requires Enabled(s, e) && slot.id < |s.tasks| && slot.branch in Wants(s.tasks[slot.id]) && slot !in Uses(s, e)
    ensures slot.id < |After(s, e).tasks| && slot.branch in Wants(After(s, e).tasks[slot.id])
  {
    OthersUntouched(s, e);
    assert slot == Slot(slot.id, slot.branch);
  }

  lemma {:induction false} RunsStayHealthy(keeps: Keeping, size: nat, pools: seq<Pool>, events: seq<PoolEvent>, n: nat)
    requires Returns(keeps) && IsPoolRun(keeps, size, pools, events) && n < |pools|
    ensures Healthy(size, pools[n])
  {
    if n > 0 {
      RunsStayHealthy(keeps, size, pools, events, n - 1);
      StepStaysHealthy(keeps, size, pools[n - 1], events[n - 1]);
    }
  }

  /** With any pool of at least one connection, as long as some task is unfinished something can happen that is
      neither a new request nor a failure. */
  lemma PoolNeverStuck(keeps: Keeping, size: nat, pools: seq<Pool>, events: seq<PoolEvent>, n: nat, k: TaskId)
    returns (e: PoolEvent)
    requires size >= 1 && Returns(keeps) && IsPoolRun(keeps, size, pools, events) && n < |pools|
    requires k < |pools[n].state.tasks| && !Finished(pools[n].state.tasks[k])
    ensures PoolEnabled(size, pools[n], e)
    ensures e.Run? ==> !e.e.Start? && !e.e.Abort?
  {
    RunsStayHealthy(keeps, size, pools, events, n);
    var p := pools[n];
    if slot :| slot in p.held {
      var id := slot.id;
      e := Run(match slot.branch
               case Main => Advance(id)
               case Existence => Fetch(id, ReadExact)
               case Row => Fetch(id, ReadRow));
    } else {
      var id := LastUnfinished(p.state, k);
      var t := p.state.tasks[id];
      assert ChildrenLater(p.state, id);
      var next := NextEvent(t, id);
      assert Enabled(p.state, next);
      if Uses(p.state, next) == {} {
        e := Run(next);
      } else {
        var slot :| slot in Uses(p.state, next);
        e := Checkout(slot);
      }
    }
  }

  // ---------------------------------------------------------------------------
  // The other choice: resolving an address keeps its connection
  // ---------------------------------------------------------------------------

  /** The connection that found the association is kept while one for its row is asked for. */
  function KeepsWhileResolving(t: Task, u: Task): bool {
    t.PutTask? && t.put.PutResolving? && u.PutTask? && u.put.PutCheckingRow?
  }

  /** Some task has not ended, and nothing can happen but a new request or a failure. */
  ghost predicate Stuck(size: nat, p: Pool) {
    && (exists id :: 0 <= id < |p.state.tasks| && !Finished(p.state.tasks[id]))
    && (forall e :: PoolEnabled(size, p, e) ==> e.Run? && (e.e.Start? || e.e.Abort?))
  }

  lemma PoolGrows(keeps: Keeping, size: nat, pools: seq<Pool>, events: seq<PoolEvent>, e: PoolEvent)
    returns (pools': seq<Pool>, events': seq<PoolEvent>)
    requires IsPoolRun(keeps, size, pools, events) && PoolEnabled(size, Last(pools), e)
    ensures IsPoolRun(keeps, size, pools', events') && Last(pools') == PoolAfter(keeps, size, Last(pools), e)
  {
    pools', events' := pools + [PoolAfter(keeps, size, Last(pools), e)], events + [e];
    forall i | 0 <= i < |events'|
      ensures PoolEnabled(size, pools'[i], events'[i])
      ensures pools'[i + 1] == PoolAfter(keeps, size, pools'[i], events'[i])
    {
      if i < |events| {
        assert pools'[i] == pools[i] && pools'[i + 1] == pools[i + 1] && events'[i] == events[i];
      }
    }
  }

  /** A statement of the last task, on the connection it has. */
  lemma StatementRuns(keeps: Keeping, size: nat, p: Pool, others: seq<Task>, t: Task)
    requires p.state.tasks == others + [t] && CanAdvance(t) && Wants(t) == {Main} && Slot(|others|, Main) in p.held
    ensures PoolEnabled(size, p, Run(Advance(|others|)))
    ensures
      var id, next := |others|, OwnStep(p.state.store, t);
      PoolAfter(keeps, size, p, Run(Advance(id))) == Pool(
        State(next.0, others + [next.1]),
        p.held - {Slot(id, Main), Slot(id, Spare)} + if keeps(t, next.1) then {Slot(id, Spare)} else {})
  {
    var e := Advance(|others|);
    assert After(p.state, e).tasks == others + [OwnStep(p.state.store, t).1];
    assert Frees(p.state, e) == {Slot(|others|, Main), Slot(|others|, Spare)};
  }

  /** A checkout and the statement on it. */
  lemma PoolRuns(keeps: Keeping, size: nat, pools: seq<Pool>, events: seq<PoolEvent>, others: seq<Task>, t: Task)
    returns (pools': seq<Pool>, events': seq<PoolEvent>)
    requires IsPoolRun(keeps, size, pools, events) && Last(pools).state.tasks == others + [t] && CanAdvance(t)
    requires Slot(|others|, Main) !in Last(pools).held && Slot(|others|, Spare) !in Last(pools).held
    requires |Last(pools).held| < size && Wants(t) == {Main}
    ensures IsPoolRun(keeps, size, pools', events')
    ensures
      var p, next := Last(pools), OwnStep(Last(pools).state.store, t);
      Last(pools') == Pool(
        State(next.0, others + [next.1]),
        p.held + if keeps(t, next.1) then {Slot(|others|, Spare)} else {})
  {
    var p, id := Last(pools), |others|;
    pools', events' := PoolGrows(keeps, size, pools, events, Checkout(Slot(id, Main)));
    assert Last(pools') == p.(held := p.held + {Slot(id, Main)});
    assert p.held + {Slot(id, Main)} - {Slot(id, Main), Slot(id, Spare)} == p.held;
    StatementRuns(keeps, size, Last(pools'), others, t);
    pools', events' := PoolGrows(keeps, size, pools', events', Run(Advance(id)));
  }

  /** A store with one association, put there over the pool. */
  lemma PutOverPool(size: nat, a: Association, f: Fragment, b: Bytes) returns (pools: seq<Pool>, events: seq<PoolEvent>)
    requires size >= 1 && Puttable(f, b)
    ensures IsPoolRun(KeepsWhileResolving, size, pools, events)
    ensures
      var s := Snapshot({}, map[], map[], false);
      Last(pools) == Pool(State(Written(s, a, f, b), [PutTask(a, f, Some(b), PutDone(true))]), {})
  {
    var t := PutTask(a, f, Some(b), PutResolving);
    pools, events := [Pool(State(Snapshot({}, map[], map[], false), []), {})], [];
    pools, events := PoolGrows(KeepsWhileResolving, size, pools, events, Run(Start(t)));
    pools, events := PoolRuns(KeepsWhileResolving, size, pools, events, [], t);
    assert Last(pools).state.tasks == [t.(put := PutWriting)];
    pools, events := PoolGrows(KeepsWhileResolving, size, pools, events, Run(Advance(0)));
    pools, events := PoolRuns(KeepsWhileResolving, size, pools, events, [], t.(put := PutIndexing));
    assert Last(pools).state.tasks == [t.(put := PutDone(true))];
  }

  /** `k` puts of the same address have found it and hold on to their connections. */
  ghost predicate Resolved(p: Pool, t: Task, k: nat) {
    && t.PutTask? && |p.state.tasks| == k + 1 && Finished(p.state.tasks[0])
    && t.a in p.state.store.associations
    && (forall id :: 1 <= id <= k ==> p.state.tasks[id] == t.(put := PutCheckingRow))
    && |p.held| == k && (forall slot :: slot in p.held <==> slot.branch == Spare && 1 <= slot.id <= k)
  }

  lemma {:induction false} ManyResolve(size: nat, a: Association, f: Fragment, b: Bytes, k: nat)
    returns (pools: seq<Pool>, events: seq<PoolEvent>)
    requires size >= 1 && Puttable(f, b) && k <= size
    ensures IsPoolRun(KeepsWhileResolving, size, pools, events)
    ensures Resolved(Last(pools), PutTask(a, f, Some(b), PutResolving), k)
  {
    if k == 0 {
      pools, events := PutOverPool(size, a, f, b);
    } else {
      var t := PutTask(a, f, Some(b), PutResolving);
      pools, events := ManyResolve(size, a, f, b, k - 1);
      pools, events := OneMoreResolves(size, pools, events, t, k - 1);
    }
  }

  lemma OneMoreResolves(size: nat, pools: seq<Pool>, events: seq<PoolEvent>, t: Task, k: nat)
    returns (pools': seq<Pool>, events': seq<PoolEvent>)
    requires IsPoolRun(KeepsWhileResolving, size, pools, events) && k < size
    requires t.PutTask? && Initial(t) && Resolved(Last(pools), t, k)
    ensures IsPoolRun(KeepsWhileResolving, size, pools', events') && Resolved(Last(pools'), t, k + 1)
  {
    var p := Last(pools);
    pools', events' := PoolGrows(KeepsWhileResolving, size, pools, events, Run(Start(t)));
    assert Last(pools').held == p.held;
    pools', events' := PoolRuns(KeepsWhileResolving, size, pools', events', p.state.tasks, t);
    assert Last(pools').held == p.held + {Slot(k + 1, Spare)};
  }

  /** Then a pool of any size can be exhausted by as many puts of one address, each waiting for a second connection. */
  lemma KeepingGetsStuck(size: nat, a: Association, f: Fragment, b: Bytes)
    returns (pools: seq<Pool>, events: seq<PoolEvent>)
    requires size >= 1 && Puttable(f, b)
    ensures IsPoolRun(KeepsWhileResolving, size, pools, events) && Stuck(size, Last(pools))
  {
    pools, events := ManyResolve(size, a, f, b, size);
    var p := Last(pools);
    assert !Finished(p.state.tasks[1]);
    forall e | PoolEnabled(size, p, e)
      ensures e.Run? && (e.e.Start? || e.e.Abort?)
    {
      if e.Run? && (e.e.Advance? || e.e.Misread?) {
        assert Slot(e.e.id, Main) !in p.held;
      }
    }
  }
}
