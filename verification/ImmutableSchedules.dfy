/** The one-at-a-time operations as schedules of the protocol: a task that nothing interrupts does what the operation's
    contract says. */
module ImmutableSchedules {
  import opened Outcomes
  import opened Fragments
  import opened Snapshots
  import opened Purge
  import opened StoreContract
  import opened ImmutableProtocol

  // ---------------------------------------------------------------------------
  // Puts, copies and gets
  // ---------------------------------------------------------------------------

  /** A step of task `id` that is not its failure. */
  predicate Own(e: Event, id: TaskId) {
    match e
    case Advance(i) => i == id
    case Fetch(i, _) => i == id
    case _ => false
  }

  /** Event `from` starts a task, and all events after it are that task's own. */
  ghost predicate Alone(states: seq<State>, events: seq<Event>, from: nat, n: nat)
    requires IsRun(states, events) && from < n <= |events|
  {
    events[from].Start? && forall i :: from < i < n ==> Own(events[i], |states[from].tasks|)
  }

  /** How far an undisturbed put of `t0` on `s0` has got. */
  predicate PutProgress(s0: Snapshot, t0: Task, s: Snapshot, t: Task)
    requires t0.PutTask?
  {
    && t.PutTask? && t == t0.(put := t.put)
    && var unmatched := !PutMatches(s0, t0.a) && PutUnmatched(t0) == PutWriting;
       match t.put
       case PutResolving => s == s0
       case PutCheckingRow => s == s0 && t0.a in s0.associations
       case PutComparing => s == s0 && PutMatches(s0, t0.a)
       case PutWriting => s == s0 && unmatched
       case PutIndexing => t0.payload.Some? && s == s0.(objects := s0.objects[t0.a.hash := t0.payload.value]) &&
         unmatched
       case PutDone(ok) => ok == PutResult(s0, t0.a, t0.f, t0.payload).Ok? && s == AfterPut(s0, t0.a, t0.f, t0.payload)
  }

  lemma PutProgressStep(s0: Snapshot, t0: Task, s: Snapshot, t: Task)
    requires t0.PutTask? && PutValid(t0.f, t0.payload) && PutProgress(s0, t0, s, t) && !Finished(t)
    ensures PutProgress(s0, t0, PutStep(s, t).0, PutStep(s, t).1)
  {
  }

  /** Every run in which a put starts and only it moves after that: when the put ends, it has the result and the
      effect of the operation. */
  lemma {:induction false} PutRunsAlone(states: seq<State>, events: seq<Event>, from: nat, n: nat) returns (t: Task)
    requires IsRun(states, events) && from < n <= |events| && Alone(states, events, from, n)
    requires events[from].task.PutTask?
    ensures states[n].tasks == states[from].tasks + [t]
    ensures PutProgress(states[from].store, events[from].task, states[n].store, t)
    ensures Finished(t) ==>
              var s, p := states[from].store, events[from].task;
              && states[n].store == AfterPut(s, p.a, p.f, p.payload)
              && t == p.(put := PutDone(PutResult(s, p.a, p.f, p.payload).Ok?))
  {
    if n == from + 1 {
      t := events[from].task;
    } else {
      t := PutRunsAlone(states, events, from, n - 1);
      PutProgressStep(states[from].store, events[from].task, states[n - 1].store, t);
      t := PutStep(states[n - 1].store, t).1;
    }
  }

  predicate CopyProgress(s0: Snapshot, t0: Task, s: Snapshot, t: Task)
    requires t0.CopyTask?
  {
    && t.CopyTask? && t == t0.(copy := t.copy)
    && match t.copy
       case CopyChecking => s == s0
       case CopyInserting => s == s0 && CopySource(s0, t0.source)
       case CopyDone(ok) => ok == CopySource(s0, t0.source) && s == AfterCopy(s0, t0.source, t0.destination)
  }

  /** Likewise a copy. */
  lemma {:induction false} CopyRunsAlone(states: seq<State>, events: seq<Event>, from: nat, n: nat) returns (t: Task)
    requires IsRun(states, events) && from < n <= |events| && Alone(states, events, from, n)
    requires events[from].task.CopyTask?
    ensures states[n].tasks == states[from].tasks + [t]
    ensures CopyProgress(states[from].store, events[from].task, states[n].store, t)
    ensures Finished(t) ==>
              var s, c := states[from].store, events[from].task;
              && states[n].store == AfterCopy(s, c.source, c.destination)
              && t == c.(copy := CopyDone(CopySource(s, c.source)))
  {
    if n == from + 1 {
      t := events[from].task;
    } else {
      t := CopyRunsAlone(states, events, from, n - 1);
      t := CopyStep(states[n - 1].store, t).1;
    }
  }

  predicate GetProgress(s: Snapshot, t0: Task, t: Task)
    requires t0.GetTask?
  {
    && t.GetTask? && t.a == t0.a
    && (t.exact.Some? ==> t.exact.value == (t.a in s.associations))
    && (t.row.Some? ==> t.row.value == LoadableMetadata(s, t.a.hash))
    && (t.found.Some? ==> t.found.value == if t.a.hash in s.objects then Some(s.objects[t.a.hash]) else None)
  }

  /** Likewise a get, whatever order its three reads come in. */
  lemma {:induction false} GetRunsAlone(states: seq<State>, events: seq<Event>, from: nat, n: nat) returns (t: Task)
    requires IsRun(states, events) && from < n <= |events| && Alone(states, events, from, n)
    requires events[from].task.GetTask?
    ensures states[n] == State(states[from].store, states[from].tasks + [t])
    ensures GetProgress(states[n].store, events[from].task, t)
    ensures Finished(t) ==> GetResult(states[n].store, t) == Got(states[from].store, events[from].task.a)
  {
    if n == from + 1 {
      t := events[from].task;
    } else {
      t := GetRunsAlone(states, events, from, n - 1);
      t := GetStep(states[n - 1].store, t, events[n - 1].read);
    }
  }

  /** How many statements a put, copy or get has left at most. */
  function StatementsLeft(t: Task): nat
    requires !t.ObliterateTask?
  {
    match t
    case PutTask(_, _, _, put) =>
      (match put
       case PutResolving => 5
       case PutCheckingRow => 4
       case PutComparing => 3
       case PutWriting => 2
       case PutIndexing => 1
       case PutDone(_) => 0)
    case CopyTask(_, _, copy) => (match copy case CopyChecking => 2 case CopyInserting => 1 case CopyDone(_) => 0)
    case GetTask(_, exact, row, found) =>
      (if exact.None? then 1 else 0) + (if row.None? then 1 else 0) + (if found.None? then 1 else 0)
  }

  function NextOwn(t: Task, id: TaskId): Event
    requires !t.ObliterateTask?
  {
    if t.GetTask?
    then Fetch(id, if t.exact.None? then ReadExact else if t.row.None? then ReadRow else ReadObject)
    else Advance(id)
  }

  lemma {:induction false} GoesOnAlone(states: seq<State>, events: seq<Event>, others: seq<Task>, t: Task)
    returns (states': seq<State>, events': seq<Event>, t': Task)
    requires IsRun(states, events) && Last(states).tasks == others + [t] && !t.ObliterateTask?
    ensures IsRun(states', events') && states <= states' && events <= events'
    ensures Last(states').tasks == others + [t'] && Finished(t')
    ensures forall i :: |events| <= i < |events'| ==> Own(events'[i], |others|)
    decreases StatementsLeft(t)
  {
    if Finished(t) {
      states', events', t' := states, events, t;
    } else {
      states', events' := Grow(states, events, NextOwn(t, |others|));
      var next := Last(Last(states').tasks);
      assert Last(states').tasks == others + [next];
      states', events', t' := GoesOnAlone(states', events', others, next);
    }
  }

  /** A put, copy or get can be started at any time and run to its end undisturbed. */
  lemma EndsAlone(states: seq<State>, events: seq<Event>, task: Task)
    returns (states': seq<State>, events': seq<Event>, t: Task)
    requires IsRun(states, events) && Initial(task) && !task.ObliterateTask?
    ensures IsRun(states', events') && states <= states' && events <= events' && |events| < |events'|
    ensures events'[|events|] == Start(task) && Alone(states', events', |events|, |events'|)
    ensures Last(states').tasks == Last(states).tasks + [t] && Finished(t)
  {
    states', events' := Grow(states, events, Start(task));
    states', events', t := GoesOnAlone(states', events', Last(states).tasks, task);
  }

  // ---------------------------------------------------------------------------
  // Obliterate
  // ---------------------------------------------------------------------------

  /** A step, not a failure, of task `id` or of one numbered `since` or later. */
  predicate OfTree(e: Event, id: TaskId, since: TaskId) {
    match e
    case Start(_) => false
    case Abort(_) => false
    case Advance(i) => i == id || i >= since
    case Fetch(i, _) => i == id || i >= since
    case Spawn(i) => i == id || i >= since
    case Join(i) => i == id || i >= since
    case Misread(_) => false
  }

  /** The second run extends the first by steps of task `id` and of tasks spawned since. */
  ghost predicate Follows(states: seq<State>, events: seq<Event>, states': seq<State>, events': seq<Event>, id: TaskId)
    requires IsRun(states, events)
  {
    && IsRun(states', events') && states <= states' && events <= events'
    && |Last(states).tasks| <= |Last(states').tasks|
    && forall i :: |events| <= i < |events'| ==> OfTree(events'[i], id, |Last(states).tasks|)
  }

  lemma FollowsOn(states: seq<State>, events: seq<Event>, states': seq<State>, events': seq<Event>,
                  states'': seq<State>, events'': seq<Event>, id: TaskId, next: TaskId)
    requires IsRun(states, events) && Follows(states, events, states', events', id)
    requires Follows(states', events', states'', events'', next) && (next == id || next >= |Last(states).tasks|)
    ensures Follows(states, events, states'', events'', id)
  {
    forall i | |events| <= i < |events''|
      ensures OfTree(events''[i], id, |Last(states).tasks|)
    {
      assert i < |events'| ==> events''[i] == events'[i];
    }
  }

  lemma GrowTree(states: seq<State>, events: seq<Event>, e: Event, id: TaskId)
    returns (states': seq<State>, events': seq<Event>)
    requires IsRun(states, events) && Enabled(Last(states), e) && OfTree(e, id, |Last(states).tasks|)
    ensures Follows(states, events, states', events', id) && Last(states') == After(Last(states), e)
  {
    states', events' := Grow(states, events, e);
    OthersUntouched(Last(states), e);
  }

  /** One statement of an obliterate. */
  lemma ObliterateSteps(states: seq<State>, events: seq<Event>, id: TaskId, t: Task)
    returns (states': seq<State>, events': seq<Event>)
    requires IsRun(states, events) && id < |Last(states).tasks| && Last(states).tasks[id] == t
    requires t.ObliterateTask? && !Finished(t) && !t.phase.Waiting?
    ensures Follows(states, events, states', events', id)
    ensures Last(states') == State(ObliterateStep(Last(states).store, t).0,
        Last(states).tasks[id := ObliterateStep(Last(states).store, t).1])
  {
    states', events' := GrowTree(states, events, Advance(id), id);
  }

  /** And the next. */
  lemma ObliterateGoesOn(states: seq<State>, events: seq<Event>, states': seq<State>, events': seq<Event>, id: TaskId,
                         t: Task)
    returns (states'': seq<State>, events'': seq<Event>)
    requires IsRun(states, events) && Follows(states, events, states', events', id)
    requires id < |Last(states').tasks| && Last(states').tasks[id] == t
    requires t.ObliterateTask? && !Finished(t) && !t.phase.Waiting?
    ensures Follows(states, events, states'', events'', id)
    ensures Last(states'') == State(ObliterateStep(Last(states').store, t).0,
        Last(states').tasks[id := ObliterateStep(Last(states').store, t).1])
  {
    states'', events'' := ObliterateSteps(states', events', id, t);
    FollowsOn(states, events, states', events', states'', events'', id, id);
  }

  function ScopeOf(a: Association): Scope {
    Scope(a.repository, a.context)
  }

  /** Task `id` has ended, every task it started has too, and no other task has moved. */
  predicate Settled(s: State, t: State, id: TaskId, ok: bool)
    requires id < |s.tasks| && s.tasks[id].ObliterateTask?
  {
    && |s.tasks| <= |t.tasks|
    && t.tasks[id] == ObliterateTask(s.tasks[id].a, ObliterateDone(ok))
    && OthersStand(s, t, id)
  }

  predicate OthersStand(s: State, t: State, id: TaskId)
    requires |s.tasks| <= |t.tasks|
  {
    && (forall j :: 0 <= j < |s.tasks| && j != id ==> t.tasks[j] == s.tasks[j])
    && (forall j :: |s.tasks| <= j < |t.tasks| ==> Finished(t.tasks[j]))
  }

  /** Obliterating with the sub-fragment tasks run one after the other meets the contract of the operation. */
  lemma {:induction false} ObliterateRunsAlone(states: seq<State>, events: seq<Event>, id: TaskId)
    returns (states': seq<State>, events': seq<Event>, ok: bool, gone: set<Hash>)
    requires IsRun(states, events) && id < |Last(states).tasks|
    requires Last(states).tasks[id].ObliterateTask? && Last(states).tasks[id].phase == Loading
    ensures Follows(states, events, states', events', id) && Settled(Last(states), Last(states'), id, ok)
    ensures
      var a := Last(states).tasks[id].a;
      Obliterates(Last(states).store, Last(states').store, iset{a.hash}, ScopeOf(a), ok, gone)
    decreases LiveRows(Last(states).store), 0
  {
    var s, a := Last(states), Last(states).tasks[id].a;
    var h := a.hash;
    states', events' := ObliterateSteps(states, events, id, s.tasks[id]);
    gone := {};
    if h !in s.store.metadata || !SizeOk(s.store.metadata[h]) {
      ok := false;
      ObliteratesMissing(s.store, h, ScopeOf(a));
    } else if !LiveAt(s.store, h) {
      ok := true;
      ObliteratesFlagged(s.store, h, ScopeOf(a));
    } else {
      var f := s.store.metadata[h];
      states', events' := ObliterateGoesOn(states, events, states', events', id, ObliterateTask(a, Locking(f)));
      MarkFades(s.store, h);
      var states'', events'';
      if f.flags.fragmented {
        states'', events'', ok, gone := TreeRunsAlone(states', events', id, f, s);
      } else {
        ok := true;
        ObliteratesSingle(s.store, h, ScopeOf(a));
        gone := if Shared(s.store, ScopeOf(a), h) then {} else {h};
        states'', events'' := UnlinkRunsAlone(states', events', id, f);
      }
      FollowsOn(states, events, states', events', states'', events'', id, id);
      states', events' := states'', events'';
    }
  }

  /** The part of an obliterate of a fragmented row that comes after it was locked; `s` is the state before. */
  lemma {:induction false} TreeRunsAlone(states: seq<State>, events: seq<Event>, id: TaskId, f: Fragment, s: State)
    returns (states': seq<State>, events': seq<Event>, ok: bool, gone: set<Hash>)
    requires IsRun(states, events) && id < |s.tasks| && s.tasks[id].ObliterateTask?
    requires
      var a := s.tasks[id].a;
      && LiveAt(s.store, a.hash) && f == s.store.metadata[a.hash] && SizeOk(f) && f.flags.fragmented
      && Last(states) == State(Mark(s.store, a.hash), s.tasks[id := ObliterateTask(a, Listing(f))])
    ensures Follows(states, events, states', events', id) && Settled(s, Last(states'), id, ok)
    ensures Obliterates(s.store, Last(states').store, iset{s.tasks[id].a.hash}, ScopeOf(s.tasks[id].a), ok, gone)
    decreases LiveRows(Last(states).store), 3
  {
    var a := s.tasks[id].a;
    var h := a.hash;
    states', events' := ObliterateSteps(states, events, id, ObliterateTask(a, Listing(f)));
    if PayloadAt(s.store, h).None? {
      ok, gone := false, {};
      ObliteratesUnreadable(s.store, h, ScopeOf(a));
    } else {
      var m, all := Last(states').store, Roots(References(s.store, h));
      ProgressStart(m, all, ScopeOf(a));
      var states'', events'', children, failures;
      states'', events'', children, failures, gone :=
        ChildrenRunAlone(states', events', id, a, f, References(s.store, h), [], m, iset{}, all, false, {});
      FollowsOn(states, events, states', events', states'', events'', id, id);
      ok := !failures;
      assert iset{} + all == all;
      ObliteratesTree(s.store, Last(states'').store, h, ScopeOf(a), ok, gone);
      states', events' := TreeEndsAlone(states, events, states'', events'', id, a, f, children, ok);
      if ok {
        gone := if Shared(Last(states'').store, ScopeOf(a), h) then gone else gone + {h};
      }
    }
  }

  /** Joining the sub-fragment tasks and what comes after. */
  lemma TreeEndsAlone(states: seq<State>, events: seq<Event>, states': seq<State>, events': seq<Event>, id: TaskId,
                      a: Association, f: Fragment, children: seq<TaskId>, ok: bool)
    returns (states'': seq<State>, events'': seq<Event>)
    requires IsRun(states, events) && Follows(states, events, states', events', id)
    requires Awaits(Last(states'), id, a, f, [], children, !ok)
    requires a.hash in Last(states').store.metadata && Last(states').store.metadata[a.hash] == Marked(f)
    ensures Follows(states, events, states'', events'', id)
    ensures
      var s := Last(states');
      Last(states'') == State(
        if ok then Finish(s.store, a.hash, f, ScopeOf(a)) else s.store,
        s.tasks[id := ObliterateTask(a, ObliterateDone(ok))])
  {
    states'', events'' := ParentJoins(states', events', id, a, f, children, ok);
    FollowsOn(states, events, states', events', states'', events'', id, id);
    if ok {
      var last, lastEvents := UnlinkRunsAlone(states'', events'', id, f);
      FollowsOn(states, events, states'', events'', last, lastEvents, id, id);
      states'', events'' := last, lastEvents;
    }
  }

  /** From dropping the association to the end. */
  lemma UnlinkRunsAlone(states: seq<State>, events: seq<Event>, id: TaskId, f: Fragment)
    returns (states': seq<State>, events': seq<Event>)
    requires IsRun(states, events) && id < |Last(states).tasks|
    requires Last(states).tasks[id].ObliterateTask? && Last(states).tasks[id].phase == Unlinking(f)
    requires
      var s, h := Last(states).store, Last(states).tasks[id].a.hash;
      h in s.metadata && s.metadata[h] == Marked(f)
    ensures Follows(states, events, states', events', id)
    ensures
      var s, a := Last(states), Last(states).tasks[id].a;
      Last(states') == State(Finish(s.store, a.hash, f, ScopeOf(a)),
        s.tasks[id := ObliterateTask(a, ObliterateDone(true))])
  {
    var s, a := Last(states), Last(states).tasks[id].a;
    states', events' := ObliterateSteps(states, events, id, ObliterateTask(a, Unlinking(f)));
    assert (exists x :: x in Last(states').store.associations && x.hash == a.hash) <==>
      Shared(s.store, ScopeOf(a), a.hash);
    states', events' := ObliterateGoesOn(states, events, states', events', id, ObliterateTask(a, Counting(f)));
    if Shared(s.store, ScopeOf(a), a.hash) {
      states', events' := ObliterateGoesOn(states, events, states', events', id, ObliterateTask(a, Restoring(f)));
    } else {
      states', events' := DeletingRunsAlone(states, events, states', events', id, a, f);
    }
    assert Last(states').tasks == s.tasks[id := ObliterateTask(a, ObliterateDone(true))];
  }

  lemma DeletingRunsAlone(states: seq<State>, events: seq<Event>, states': seq<State>, events': seq<Event>,
                          id: TaskId, a: Association, f: Fragment)
    returns (states'': seq<State>, events'': seq<Event>)
    requires IsRun(states, events) && Follows(states, events, states', events', id)
    requires id < |Last(states').tasks| && Last(states').tasks[id] == ObliterateTask(a, Deleting(f))
    requires a.hash in Last(states').store.metadata && Last(states').store.metadata[a.hash] == Marked(f)
    ensures Follows(states, events, states'', events'', id)
    ensures
      var s := Last(states');
      Last(states'') == State(s.store.(metadata := s.store.metadata[a.hash := TOMBSTONE],
                                       objects := s.store.objects - {a.hash}),
                              s.tasks[id := ObliterateTask(a, ObliterateDone(true))])
  {
    states'', events'' := ObliterateGoesOn(states, events, states', events', id, ObliterateTask(a, Deleting(f)));
    states'', events'' := ObliterateGoesOn(states, events, states'', events'', id, ObliterateTask(a, Finalizing(f)));
  }

  /** Task `id` waits for `children`, all of which have ended, and `failures` tells whether one of them failed. */
  predicate Awaits(t: State, id: TaskId, a: Association, f: Fragment, unspawned: seq<Hash>, children: seq<TaskId>,
                   failures: bool) {
    && id < |t.tasks| && t.tasks[id] == ObliterateTask(a, Waiting(f, unspawned, children))
    && (forall c :: c in children ==>
      c < |t.tasks| && c != id && t.tasks[c].ObliterateTask? && t.tasks[c].phase.ObliterateDone?)
    && (failures <==> exists c :: c in children && t.tasks[c].phase == ObliterateDone(false))
  }

  /** The sub-fragment tasks still to be spawned, one after the other; `m` is the store before the first of all. */
  lemma {:induction false} ChildrenRunAlone(states: seq<State>, events: seq<Event>, id: TaskId, a: Association,
                                            f: Fragment, unspawned: seq<Hash>, children: seq<TaskId>, m: Snapshot,
                                            done: iset<Hash>, all: iset<Hash>, failures: bool, gone: set<Hash>)
    returns (states': seq<State>, events': seq<Event>, children': seq<TaskId>, failures': bool, gone': set<Hash>)
    requires IsRun(states, events) && Awaits(Last(states), id, a, f, unspawned, children, failures)
    requires Progress(m, Last(states).store, done, all, ScopeOf(a), failures, gone) && Roots(unspawned) <= all
    ensures Follows(states, events, states', events', id) && OthersStand(Last(states), Last(states'), id)
    ensures Awaits(Last(states'), id, a, f, [], children', failures')
    ensures Progress(m, Last(states').store, done + Roots(unspawned), all, ScopeOf(a), failures', gone')
    decreases LiveRows(m), 2, |unspawned|
  {
    if unspawned == [] {
      states', events', children', failures', gone' := states, events, children, failures, gone;
      assert done + Roots(unspawned) == done;
    } else {
      var t, child, rest := Last(states), unspawned[0], unspawned[1..];
      RootsSplit(done, unspawned);
      ErodedKeepsNoNewLive(m, t.store, Reach(m, all), ScopeOf(a));
      var ok, more;
      states', events', children', ok, more := ChildRunsAlone(states, events, id, a, f, unspawned, children, failures);
      var u := Last(states');
      ProgressStep(m, t.store, u.store, done, all, child, ScopeOf(a), failures, ok, gone, more);
      var states'', events'';
      states'', events'', children', failures', gone' :=
        ChildrenRunAlone(states', events', id, a, f, rest, children', m, done + iset{child}, all, failures ||
          !ok, gone + more);
      FollowsOn(states, events, states', events', states'', events'', id, id);
      OthersStillStand(t, u, Last(states''), id);
      states', events' := states'', events'';
    }
  }

  lemma RootsSplit(done: iset<Hash>, unspawned: seq<Hash>)
    requires unspawned != []
    ensures Roots(unspawned[1..]) <= Roots(unspawned) && unspawned[0] in Roots(unspawned)
    ensures done + iset{unspawned[0]} + Roots(unspawned[1..]) == done + Roots(unspawned)
  {
    assert unspawned == [unspawned[0]] + unspawned[1..];
  }

  lemma OthersStillStand(s: State, t: State, u: State, id: TaskId)
    requires id < |s.tasks| <= |t.tasks| <= |u.tasks| && OthersStand(s, t, id) && OthersStand(t, u, id)
    ensures OthersStand(s, u, id)
  {
  }

  lemma ParentJoins(states: seq<State>, events: seq<Event>, id: TaskId, a: Association, f: Fragment,
                    children: seq<TaskId>, ok: bool)
    returns (states': seq<State>, events': seq<Event>)
    requires IsRun(states, events) && Awaits(Last(states), id, a, f, [], children, !ok)
    ensures Follows(states, events, states', events', id)
    ensures
      var s, next := Last(states), if ok then Unlinking(f) else ObliterateDone(false);
      Last(states') == State(s.store, s.tasks[id := ObliterateTask(a, next)])
  {
    states', events' := GrowTree(states, events, Join(id), id);
  }

  /** The next sub-fragment task is spawned and run to its end. */
  lemma {:induction false} ChildRunsAlone(states: seq<State>, events: seq<Event>, id: TaskId, a: Association,
                                          f: Fragment, unspawned: seq<Hash>, children: seq<TaskId>, failures: bool)
    returns (states': seq<State>, events': seq<Event>, children': seq<TaskId>, ok: bool, gone: set<Hash>)
    requires IsRun(states, events) && unspawned != [] && Awaits(Last(states), id, a, f, unspawned, children, failures)
    ensures Follows(states, events, states', events', id) && OthersStand(Last(states), Last(states'), id)
    ensures Awaits(Last(states'), id, a, f, unspawned[1..], children', failures || !ok)
    ensures Obliterates(Last(states).store, Last(states').store, iset{unspawned[0]}, ScopeOf(a), ok, gone)
    decreases LiveRows(Last(states).store), 1
  {
    var t, child := Last(states), |Last(states).tasks|;
    states', events' := GrowTree(states, events, Spawn(id), id);
    var u := Last(states');
    assert u.store == t.store && u.tasks[child] == ObliterateTask(a.(hash := unspawned[0]), Loading);
    var states'', events'';
    states'', events'', ok, gone := ObliterateRunsAlone(states', events', child);
    FollowsOn(states, events, states', events', states'', events'', id, child);
    states', events', children' := states'', events'', children + [child];
    ChildAwaited(t, u, Last(states'), id, a, f, unspawned, children, failures, ok);
  }

  lemma ChildAwaited(t: State, u: State, v: State, id: TaskId, a: Association, f: Fragment, unspawned: seq<Hash>,
                     children: seq<TaskId>, failures: bool, good: bool)
    requires unspawned != [] && Awaits(t, id, a, f, unspawned, children, failures)
    requires u == After(t, Spawn(id)) && Settled(u, v, |t.tasks|, good)
    ensures Awaits(v, id, a, f, unspawned[1..], children + [|t.tasks|], failures || !good)
    ensures OthersStand(t, v, id)
  {
    var grown := children + [|t.tasks|];
    assert forall c :: c in grown <==> c in children || c == |t.tasks|;
    assert forall c :: c in children ==> v.tasks[c] == t.tasks[c];
  }
}
