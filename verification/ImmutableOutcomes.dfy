/** What an obliterate comes to when its tasks run side by side, and exactly when it is sure to succeed. */
module ImmutableOutcomes {
  import opened Outcomes
  import opened Fragments
  import opened Snapshots
  import opened Purge
  import opened StoreContract
  import opened ImmutableProtocol
  import opened ImmutableSchedules
  import opened Routes
  import opened ImmutableTrees

  /** Event `from` starts an obliterate, and up to `n` only its tasks move and none of them crashes. What other tasks
      were doing before does not matter. */
  ghost predicate Undisturbed(states: seq<State>, events: seq<Event>, from: nat, n: nat)
    requires IsRun(states, events) && from < n <= |events|
  {
    && events[from].Start? && events[from].task.ObliterateTask?
    && forall i :: from < i < n ==> OfTree(events[i], |states[from].tasks|, |states[from].tasks|)
  }

  function OriginOf(s: State, e: Event): Origin
    requires e.Start? && e.task.ObliterateTask?
  {
    Origin(s.store, e.task.a, |s.tasks|)
  }

  lemma TreeStarts(s: State, e: Event) returns (places: seq<Place>)
    requires Enabled(s, e) && e.Start? && e.task.ObliterateTask?
    ensures Tree(OriginOf(s, e), After(s, e), places)
  {
    var root := Place(Route([e.task.a.hash], []), 0);
    places := seq(|s.tasks| + 1, i => root);
    var g, t := OriginOf(s, e), After(s, e);
    forall x
      ensures RowSound(g, t, places, x)
    {
    }
    assert TaskSound(g, t, places, g.root);
  }

  lemma StepOfTree(g: Origin, s: State, places: seq<Place>, e: Event)
    requires Tree(g, s, places) && Enabled(s, e) && OfTree(e, g.root, g.root)
    ensures TreeStep(g, s, e)
  {
    forall j | g.root <= j < |s.tasks|
      ensures s.tasks[j].ObliterateTask?
    {
      assert TaskSound(g, s, places, j);
    }
  }

  lemma {:induction false} RunsStayTrees(states: seq<State>, events: seq<Event>, from: nat, n: nat)
    returns (places: seq<Place>)
    requires IsRun(states, events) && from < n <= |events| && Undisturbed(states, events, from, n)
    ensures Tree(OriginOf(states[from], events[from]), states[n], places)
    ensures states[n].tasks[..|states[from].tasks|] == states[from].tasks
  {
    if n == from + 1 {
      places := TreeStarts(states[from], events[from]);
    } else {
      var g, s, e := OriginOf(states[from], events[from]), states[n - 1], events[n - 1];
      places := RunsStayTrees(states, events, from, n - 1);
      StepOfTree(g, s, places, e);
      StepShape(g, s, places, e);
      TreeStays(g, s, places, e);
      places := PlacesAfter(s, e, places);
    }
  }

  // ---------------------------------------------------------------------------
  // The end of a tree
  // ---------------------------------------------------------------------------

  /** The first task ends last. */
  lemma {:induction false} RootEndsLast(g: Origin, s: State, places: seq<Place>, j: TaskId)
    requires Tree(g, s, places) && g.root <= j < |s.tasks| && Finished(s.tasks[g.root])
    ensures Finished(s.tasks[j])
    decreases j
  {
    if j > g.root {
      assert ParentSound(g, s, places, j);
      RootEndsLast(g, s, places, places[j].parent);
    }
  }

  predicate HasFailed(t: Task) {
    t.ObliterateTask? && t.phase == ObliterateDone(false)
  }

  /** And if any has failed, so has the first. */
  lemma {:induction false} FailureReachesRoot(g: Origin, s: State, places: seq<Place>, j: TaskId)
    requires Tree(g, s, places) && g.root <= j < |s.tasks| && Finished(s.tasks[g.root])
    requires HasFailed(s.tasks[j])
    ensures HasFailed(s.tasks[g.root])
    decreases j
  {
    if j > g.root {
      assert ParentSound(g, s, places, j);
      RootEndsLast(g, s, places, places[j].parent);
      FailureReachesRoot(g, s, places, places[j].parent);
    }
  }

  lemma NothingHeld(g: Origin, s: State, places: seq<Place>, x: Hash)
    requires Tree(g, s, places) && Finished(s.tasks[g.root])
    ensures !Held(g, s, x) && !Emptied(g, s, x)
  {
    forall j | g.root <= j < |s.tasks|
      ensures Finished(s.tasks[j])
    {
      RootEndsLast(g, s, places, j);
    }
  }

  /** When the first task has succeeded, every hash on which one ended is processed. */
  lemma EndedIsProcessed(g: Origin, s: State, places: seq<Place>, x: Hash)
    requires Tree(g, s, places) && s.tasks[g.root].phase == ObliterateDone(true) && Ended(g, s, x)
    ensures Stored(g.store, x)
    ensures LiveAt(g.store, x) ==> Processed(g, s, x)
  {
    assert RowSound(g, s, places, x);
    NothingHeld(g, s, places, x);
    if FailedOn(g, s, x) {
      var j :| g.root <= j < |s.tasks| && DoneOn(s.tasks[j], x, false);
      FailureReachesRoot(g, s, places, j);
    }
  }

  lemma AllReachedEnded(g: Origin, s: State, places: seq<Place>)
    requires Tree(g, s, places) && s.tasks[g.root].phase == ObliterateDone(true)
    ensures forall x :: x in Reach(g.store, iset{g.a.hash}) ==> Ended(g, s, x)
  {
    var ended := iset x | Ended(g, s, x);
    assert DoneOn(s.tasks[g.root], g.a.hash, true);
    forall x, y | x in ended && Expands(g.store, x) && y in References(g.store, x)
      ensures y in ended
    {
      EndedIsProcessed(g, s, places, x);
    }
    ReachLeast(g.store, iset{g.a.hash}, ended);
  }

  /** In whatever order the statements came, a success means that all was stored well and that exactly what is reachable
      has been purged. */
  lemma SuccessPurges(g: Origin, s: State, places: seq<Place>)
    requires Tree(g, s, places) && s.tasks[g.root].phase == ObliterateDone(true)
    ensures WellStored(g.store, iset{g.a.hash})
    ensures s.store == Purged(g.store, Reach(g.store, iset{g.a.hash}), ScopeOf(g.a))
  {
    var reached, scope := Reach(g.store, iset{g.a.hash}), ScopeOf(g.a);
    AllReachedEnded(g, s, places);
    forall x | x in reached
      ensures Stored(g.store, x) && (LiveAt(g.store, x) ==> Processed(g, s, x))
    {
      EndedIsProcessed(g, s, places, x);
    }
    forall x
      ensures x in s.store.metadata <==> x in g.store.metadata
      ensures x in g.store.metadata ==>
                s.store.metadata[x] == if Doomed(g.store, reached, scope, x) then TOMBSTONE else g.store.metadata[x]
      ensures if Doomed(g.store, reached, scope, x) then x !in s.store.objects else SameObject(g.store, s.store, x)
    {
      RowAtEnd(g, s, places, x);
    }
    forall a
      ensures a in s.store.associations <==> a in g.store.associations && !Cut(g.store, reached, scope, a)
    {
    }
    assert s.store.metadata == Purged(g.store, reached, scope).metadata;
    assert s.store.objects == Purged(g.store, reached, scope).objects;
  }

  lemma RowAtEnd(g: Origin, s: State, places: seq<Place>, x: Hash)
    requires Tree(g, s, places) && s.tasks[g.root].phase == ObliterateDone(true)
    requires
      var reached := Reach(g.store, iset{g.a.hash});
      x in reached && LiveAt(g.store, x) ==> Processed(g, s, x)
    ensures x in s.store.metadata <==> x in g.store.metadata
    ensures
      var doomed := Doomed(g.store, Reach(g.store, iset{g.a.hash}), ScopeOf(g.a), x);
      && (x in g.store.metadata ==> s.store.metadata[x] == if doomed then TOMBSTONE else g.store.metadata[x])
      && (if doomed then x !in s.store.objects else SameObject(g.store, s.store, x))
  {
    assert RowSound(g, s, places, x);
    NothingHeld(g, s, places, x);
    if x in s.store.metadata && s.store.metadata[x] != g.store.metadata[x] {
      ChangedIsReached(g, s, places, x);
    }
    if FailedOn(g, s, x) {
      var j :| g.root <= j < |s.tasks| && DoneOn(s.tasks[j], x, false);
      FailureReachesRoot(g, s, places, j);
    }
  }

  lemma ChangedIsReached(g: Origin, s: State, places: seq<Place>, x: Hash)
    requires Tree(g, s, places) && x in g.store.metadata && x in s.store.metadata
    requires s.store.metadata[x] != g.store.metadata[x]
    ensures x in Reach(g.store, iset{g.a.hash}) && LiveAt(g.store, x)
  {
    assert RowSound(g, s, places, x);
    var j :| g.root <= j < |s.tasks| && On(s.tasks[j], x) && Simple(places[j].route)
      && !s.tasks[j].phase.Loading? && !s.tasks[j].phase.Locking?;
    assert TaskSound(g, s, places, j);
    RouteReaches(g.store, g.a.hash, places[j].route);
  }

  /** And a failure too has touched only what is live and reachable. */
  lemma EndErodes(g: Origin, s: State, places: seq<Place>)
    requires Tree(g, s, places) && Finished(s.tasks[g.root])
    ensures Eroded(g.store, s.store, Reach(g.store, iset{g.a.hash}), ScopeOf(g.a))
  {
    forall x
      ensures x in s.store.metadata <==> x in g.store.metadata
    {
      assert RowSound(g, s, places, x);
    }
    forall x | x in g.store.metadata && s.store.metadata[x] != g.store.metadata[x]
      ensures x in Reach(g.store, iset{g.a.hash}) && LiveAt(g.store, x)
      ensures s.store.metadata[x] == Marked(g.store.metadata[x]) || s.store.metadata[x] == TOMBSTONE
    {
      assert RowSound(g, s, places, x);
      ChangedIsReached(g, s, places, x);
    }
    forall x
      ensures
        if NewTombstone(g.store, s.store, x)
        then x !in s.store.objects && !OtherwiseShared(g, x) && Mine(g, x) !in s.store.associations
        else SameObject(g.store, s.store, x)
    {
      assert RowSound(g, s, places, x);
      NothingHeld(g, s, places, x);
    }
  }

  // ---------------------------------------------------------------------------
  // No failure where no two routes meet
  // ---------------------------------------------------------------------------

  ghost predicate NoneFailed(g: Origin, s: State) {
    forall j, x :: g.root <= j < |s.tasks| ==> !DoneOn(s.tasks[j], x, false)
  }

  /** Only one task ever comes to a live row, so it finds the row as it loaded it. */
  lemma NobodyElseLocks(g: Origin, s: State, places: seq<Place>, id: TaskId)
    requires Tree(g, s, places) && Treelike(g.store, g.a.hash)
    requires g.root <= id < |s.tasks| && s.tasks[id].ObliterateTask? && s.tasks[id].phase.Locking?
    ensures s.tasks[id].a.hash in s.store.metadata && s.store.metadata[s.tasks[id].a.hash] == s.tasks[id].phase.original
  {
    var x := s.tasks[id].a.hash;
    assert TaskSound(g, s, places, id) && RowSound(g, s, places, x);
    forall j | g.root <= j < |s.tasks| && j != id && On(s.tasks[j], x)
      ensures !Simple(places[j].route)
    {
      assert TaskSound(g, s, places, j);
      assert !Meet(g.store, g.a.hash, places[id].route, places[j].route);
    }
  }

  lemma NoneFails(g: Origin, s: State, places: seq<Place>, e: Event)
    requires Tree(g, s, places) && TreeStep(g, s, e) && NoneFailed(g, s)
    requires Treelike(g.store, g.a.hash) && WellStored(g.store, iset{g.a.hash})
    ensures NoneFailed(g, After(s, e))
  {
    StepShape(g, s, places, e);
    var t, u := s.tasks[e.id], After(s, e);
    assert TaskSound(g, s, places, e.id) && RowSound(g, s, places, t.a.hash);
    RouteReaches(g.store, g.a.hash, places[e.id].route);
    assert Stored(g.store, t.a.hash);
    if t.phase.Locking? {
      NobodyElseLocks(g, s, places, e.id);
    } else if t.phase.Listing? {
      HolderAlone(g, s, places, e.id);
    } else if e.Join? {
      ChildrenNotFailed(g, s, places, e);
    }
    assert forall x :: !DoneOn(u.tasks[e.id], x, false);
  }

  lemma ChildrenNotFailed(g: Origin, s: State, places: seq<Place>, e: Event)
    requires Tree(g, s, places) && TreeStep(g, s, e) && NoneFailed(g, s) && e.Join?
    ensures ChildrenSucceeded(s, s.tasks[e.id])
  {
    StepShape(g, s, places, e);
    assert TaskSound(g, s, places, e.id);
    forall c | c in s.tasks[e.id].phase.children
      ensures s.tasks[c].ObliterateTask? && s.tasks[c].phase == ObliterateDone(true)
    {
      assert TaskSound(g, s, places, c) && !DoneOn(s.tasks[c], s.tasks[c].a.hash, false);
    }
  }

  lemma {:induction false} RunsNeverFail(states: seq<State>, events: seq<Event>, from: nat, n: nat)
    requires IsRun(states, events) && from < n <= |events| && Undisturbed(states, events, from, n)
    requires
      var g := OriginOf(states[from], events[from]);
      Treelike(g.store, g.a.hash) && WellStored(g.store, iset{g.a.hash})
    ensures NoneFailed(OriginOf(states[from], events[from]), states[n])
  {
    if n > from + 1 {
      var g := OriginOf(states[from], events[from]);
      RunsNeverFail(states, events, from, n - 1);
      var places := RunsStayTrees(states, events, from, n - 1);
      StepOfTree(g, states[n - 1], places, events[n - 1]);
      NoneFails(g, states[n - 1], places, events[n - 1]);
    }
  }

  // ---------------------------------------------------------------------------
  // The outcome of an obliterate
  // ---------------------------------------------------------------------------

  /** The task that event `from` started, as it stands at `n`. */
  predicate RootDone(states: seq<State>, from: nat, n: nat, ok: bool)
    requires from < |states| && n < |states|
  {
    |states[from].tasks| < |states[n].tasks| && states[n].tasks[|states[from].tasks|].ObliterateTask?
    && states[n].tasks[|states[from].tasks|].phase == ObliterateDone(ok)
  }

  lemma RootNeverFails(states: seq<State>, events: seq<Event>, from: nat, n: nat)
    requires IsRun(states, events) && from < n <= |events| && Undisturbed(states, events, from, n)
    requires
      var g := OriginOf(states[from], events[from]);
      Treelike(g.store, g.a.hash) && WellStored(g.store, iset{g.a.hash})
    ensures !RootDone(states, from, n, false)
  {
    RunsNeverFail(states, events, from, n);
    var root := |states[from].tasks|;
    if root < |states[n].tasks| && states[n].tasks[root].ObliterateTask? {
      assert !DoneOn(states[n].tasks[root], states[n].tasks[root].a.hash, false);
    }
  }

  /** Every undisturbed obliterate, on every graph and in every interleaving of its tasks, that has ended: a success
      has purged exactly what was reachable, all of it stored well; a failure has touched nothing else. All tasks have
      ended. */
  lemma EveryEndedRun(states: seq<State>, events: seq<Event>, from: nat, n: nat, ok: bool) returns (gone: set<Hash>)
    requires IsRun(states, events) && from < n <= |events| && Undisturbed(states, events, from, n)
    requires RootDone(states, from, n, ok)
    ensures
      var s, t, a := states[from].store, states[n].store, events[from].task.a;
      && Tombstoned(s, t, gone)
      && (if ok then Obliterates(s, t, iset{a.hash}, ScopeOf(a), true, gone)
        else Eroded(s, t, Reach(s, iset{a.hash}), ScopeOf(a)))
    ensures forall j :: |states[from].tasks| <= j < |states[n].tasks| ==> Finished(states[n].tasks[j])
  {
    var g := OriginOf(states[from], events[from]);
    var places := RunsStayTrees(states, events, from, n);
    gone := set x | x in states[n].store.metadata && NewTombstone(g.store, states[n].store, x);
    if ok {
      SuccessPurges(g, states[n], places);
    } else {
      EndErodes(g, states[n], places);
    }
    forall j | g.root <= j < |states[n].tasks|
      ensures Finished(states[n].tasks[j])
    {
      RootEndsLast(g, states[n], places, j);
    }
  }

  /** If no live hash is reached in two ways, every undisturbed run that has ended meets the contract of the
      operation: it has succeeded if and only if all that is reachable is stored well. */
  lemma TreelikeRunsMeetContract(states: seq<State>, events: seq<Event>, from: nat, n: nat, ok: bool)
    returns (gone: set<Hash>)
    requires IsRun(states, events) && from < n <= |events| && Undisturbed(states, events, from, n)
    requires RootDone(states, from, n, ok)
    requires Treelike(states[from].store, events[from].task.a.hash)
    ensures
      var a := events[from].task.a;
      Obliterates(states[from].store, states[n].store, iset{a.hash}, ScopeOf(a), ok, gone)
  {
    gone := EveryEndedRun(states, events, from, n, ok);
    if !ok && WellStored(states[from].store, iset{events[from].task.a.hash}) {
      RootNeverFails(states, events, from, n);
    }
  }

  // ---------------------------------------------------------------------------
  // What a failure leaves
  // ---------------------------------------------------------------------------

  /** The first task is alone with its row until it has locked it, and then keeps row and association until it
      unlinks. */
  ghost predicate RootSound(g: Origin, s: State)
    requires g.root < |s.tasks| && s.tasks[g.root].ObliterateTask?
  {
    var phase := s.tasks[g.root].phase;
    if phase.Loading? || phase.Locking? then s.store == g.store && |s.tasks| == g.root + 1
    else if phase.Listing? || phase.Waiting? || phase.Unlinking? || phase == ObliterateDone(false)
    then RootMarked(g, s.store)
    else true
  }

  predicate RootMarked(g: Origin, s: Snapshot) {
    && g.a.hash in g.store.metadata && g.a.hash in s.metadata
    && s.metadata[g.a.hash] == Marked(g.store.metadata[g.a.hash])
    && (g.a in s.associations <==> g.a in g.store.associations)
  }

  /** A step of another task of the tree touches neither the row nor the association of the first one's address. */
  lemma OthersLeaveRoot(g: Origin, s: State, places: seq<Place>, e: Event)
    requires Tree(g, s, places) && TreeStep(g, s, e) && e.id != g.root && RootSound(g, s)
    ensures RootSound(g, After(s, e))
  {
    StepShape(g, s, places, e);
    assert TaskSound(g, s, places, e.id) && TaskSound(g, s, places, g.root);
    if s.tasks[g.root].phase == ObliterateDone(false) {
      RootEndsLast(g, s, places, e.id);
    } else if Holding(s.tasks[g.root]) {
      HeldRowStands(g, s, places, e, g.root);
      HolderAlone(g, s, places, g.root);
      assert !HoldingOf(s.tasks[e.id], g.a.hash);
    }
  }

  lemma RootStaysSound(g: Origin, s: State, places: seq<Place>, e: Event)
    requires Tree(g, s, places) && TreeStep(g, s, e) && RootSound(g, s)
    requires LiveAt(g.store, g.a.hash) && SizeOk(g.store.metadata[g.a.hash])
    ensures RootSound(g, After(s, e))
  {
    StepShape(g, s, places, e);
    if e.id != g.root {
      OthersLeaveRoot(g, s, places, e);
    } else {
      assert TaskSound(g, s, places, g.root);
    }
  }

  lemma {:induction false} RunsKeepRoot(states: seq<State>, events: seq<Event>, from: nat, n: nat)
    returns (places: seq<Place>)
    requires IsRun(states, events) && from < n <= |events| && Undisturbed(states, events, from, n)
    requires
      var g := OriginOf(states[from], events[from]);
      LiveAt(g.store, g.a.hash) && SizeOk(g.store.metadata[g.a.hash])
    ensures
      var g := OriginOf(states[from], events[from]);
      Tree(g, states[n], places) && RootSound(g, states[n])
  {
    var g := OriginOf(states[from], events[from]);
    if n == from + 1 {
      places := TreeStarts(states[from], events[from]);
    } else {
      places := RunsKeepRoot(states, events, from, n - 1);
      StepOfTree(g, states[n - 1], places, events[n - 1]);
      RootStaysSound(g, states[n - 1], places, events[n - 1]);
      TreeStays(g, states[n - 1], places, events[n - 1]);
      places := PlacesAfter(states[n - 1], events[n - 1], places);
    }
  }

  /** Whenever an undisturbed obliterate of a live row with valid sizes fails, its row stays marked and its
      association in place: the address no longer resolves, and obliterating it again succeeds and changes nothing. */
  lemma FailureLeavesMarked(states: seq<State>, events: seq<Event>, from: nat, n: nat)
    requires IsRun(states, events) && from < n <= |events| && Undisturbed(states, events, from, n)
    requires RootDone(states, from, n, false)
    requires
      var s, h := states[from].store, events[from].task.a.hash;
      LiveAt(s, h) && SizeOk(s.metadata[h])
    ensures
      var s, t, a := states[from].store, states[n].store, events[from].task.a;
      && a.hash in t.metadata && t.metadata[a.hash] == Marked(s.metadata[a.hash])
      && (a in t.associations <==> a in s.associations)
      && Resolve(t, a) == Ok(MatchNone)
      && Obliterates(t, t, iset{a.hash}, ScopeOf(a), true, {})
  {
    var places := RunsKeepRoot(states, events, from, n);
    ObliteratesFlagged(states[n].store, events[from].task.a.hash, ScopeOf(events[from].task.a));
  }

  // ---------------------------------------------------------------------------
  // Every tree ends
  // ---------------------------------------------------------------------------

  function Above(r: Route): set<Hash> {
    if r.hashes == [] then {} else Members(r.hashes[..|r.hashes| - 1])
  }

  function Members(hashes: seq<Hash>): set<Hash> {
    set x | x in hashes
  }

  lemma AboveOnto(r: Route, turn: nat, next: Hash)
    requires r.hashes != []
    ensures Above(Onto(r, turn, next)) == Above(r) + {End(r)}
  {
    assert Onto(r, turn, next).hashes[..|r.hashes|] == r.hashes[..|r.hashes| - 1] + [End(r)];
  }

  /** How many statements a task and those it has yet to spawn can still take. */
  function Left(g: Origin, t: Task, r: Route): nat {
    if !t.ObliterateTask? then 0
    else
      match t.phase
      case Loading => Weight(g.store, Above(r), t.a.hash)
      case Locking(_) => Weight(g.store, Above(r), t.a.hash) - 1
      case Listing(_) => Weight(g.store, Above(r), t.a.hash) - 2
      case Waiting(_, unspawned, _) => 7 + WeightAll(g.store, Above(r) + {t.a.hash}, unspawned)
      case Unlinking(_) => 6
      case Counting(_) => 5
      case Restoring(_) => 4
      case Deleting(_) => 4
      case Finalizing(_) => 3
      case ObliterateDone(_) => 0
  }

  function AllLeft(g: Origin, tasks: seq<Task>, places: seq<Place>): nat
    requires |tasks| == |places|
  {
    if tasks == [] then 0
    else
      var n := |tasks| - 1;
      AllLeft(g, tasks[..n], places[..n]) + Left(g, tasks[n], places[n].route)
  }

  lemma {:induction false} OneLess(g: Origin, tasks: seq<Task>, places: seq<Place>, j: nat, t: Task)
    requires j < |tasks| == |places|
    ensures AllLeft(g, tasks[j := t], places) ==
        AllLeft(g, tasks, places) - Left(g, tasks[j], places[j].route) + Left(g, t, places[j].route)
  {
    var n := |tasks| - 1;
    if j < n {
      OneLess(g, tasks[..n], places[..n], j, t);
      assert tasks[j := t][..n] == tasks[..n][j := t];
    } else {
      assert tasks[j := t][..n] == tasks[..n];
    }
  }

  lemma OneMore(g: Origin, tasks: seq<Task>, places: seq<Place>, t: Task, place: Place)
    requires |tasks| == |places|
    ensures AllLeft(g, tasks + [t], places + [place]) == AllLeft(g, tasks, places) + Left(g, t, place.route)
  {
    assert (tasks + [t])[..|tasks|] == tasks && (places + [place])[..|tasks|] == places;
  }

  /** Each step uses up one statement of the task that moves; spawning passes some on to the new task. */
  lemma StepUsesUp(g: Origin, s: State, places: seq<Place>, e: Event)
    requires Tree(g, s, places) && TreeStep(g, s, e)
    ensures
      var u, r := After(s, e), places[e.id].route;
      && e.id < |s.tasks| <= |u.tasks|
      && Left(g, u.tasks[e.id], r) < Left(g, s.tasks[e.id], r)
      && (e.Spawn? ==>
            && |PlacesAfter(s, e, places)| == |u.tasks| == |s.tasks| + 1
            && Left(g, u.tasks[e.id], r) + Left(g, u.tasks[|s.tasks|], PlacesAfter(s, e, places)[|s.tasks|].route) <
              Left(g, s.tasks[e.id], r))
  {
    StepShape(g, s, places, e);
    var t, r := s.tasks[e.id], places[e.id].route;
    assert TaskSound(g, s, places, e.id);
    if e.Spawn? {
      AboveOnto(r, |t.phase.children|, t.phase.unspawned[0]);
    } else if t.phase.Listing? {
      HolderAlone(g, s, places, e.id);
      assert t.a.hash !in Above(r);
    }
  }

  lemma StepLeavesLess(g: Origin, s: State, places: seq<Place>, e: Event)
    requires Tree(g, s, places) && TreeStep(g, s, e)
    ensures |PlacesAfter(s, e, places)| == |After(s, e).tasks|
    ensures AllLeft(g, After(s, e).tasks[g.root..], PlacesAfter(s, e, places)[g.root..]) <
        AllLeft(g, s.tasks[g.root..], places[g.root..])
  {
    StepShape(g, s, places, e);
    StepUsesUp(g, s, places, e);
    var u, tasks, at, j := After(s, e), s.tasks[g.root..], places[g.root..], e.id - g.root;
    OneLess(g, tasks, at, j, u.tasks[e.id]);
    if e.Spawn? {
      SpawnLeaves(g, s, places, e);
    } else {
      assert u.tasks[g.root..] == tasks[j := u.tasks[e.id]];
    }
  }

  lemma SpawnLeaves(g: Origin, s: State, places: seq<Place>, e: Event)
    requires Tree(g, s, places) && TreeStep(g, s, e) && e.Spawn?
    ensures
      var u, grown := After(s, e), PlacesAfter(s, e, places);
      && g.root <= e.id < |s.tasks| && |grown| == |u.tasks| == |s.tasks| + 1
      && AllLeft(g, u.tasks[g.root..], grown[g.root..]) ==
           AllLeft(g, s.tasks[g.root..][e.id - g.root := u.tasks[e.id]], places[g.root..]) +
             Left(g, u.tasks[|s.tasks|], grown[|s.tasks|].route)
  {
    StepShape(g, s, places, e);
    var u, grown := After(s, e), PlacesAfter(s, e, places);
    var tasks, at := s.tasks[g.root..][e.id - g.root := u.tasks[e.id]], places[g.root..];
    OneMore(g, tasks, at, u.tasks[|s.tasks|], grown[|s.tasks|]);
    assert u.tasks[g.root..] == tasks + [u.tasks[|s.tasks|]];
    assert grown[g.root..] == at + [grown[|s.tasks|]];
  }

  /** Whatever the graph and the interleaving, the number of statements is bounded from the start. */
  lemma {:induction false} EveryTreeEnds(states: seq<State>, events: seq<Event>, from: nat, n: nat)
    returns (places: seq<Place>)
    requires IsRun(states, events) && from < n <= |events| && Undisturbed(states, events, from, n)
    ensures n - from - 1 <= Weight(states[from].store, {}, events[from].task.a.hash)
    ensures
      var g := OriginOf(states[from], events[from]);
      && Tree(g, states[n], places)
      && n - from - 1 + AllLeft(g, states[n].tasks[g.root..], places[g.root..]) <= Weight(g.store, {}, g.a.hash)
  {
    var g := OriginOf(states[from], events[from]);
    if n == from + 1 {
      places := TreeStarts(states[from], events[from]);
      assert states[n].tasks[g.root..] == [events[from].task] && places[g.root..] == [places[g.root]];
      assert Above(places[g.root].route) == {};
      OneMore(g, [], [], events[from].task, places[g.root]);
    } else {
      places := EveryTreeEnds(states, events, from, n - 1);
      StepOfTree(g, states[n - 1], places, events[n - 1]);
      StepLeavesLess(g, states[n - 1], places, events[n - 1]);
      TreeStays(g, states[n - 1], places, events[n - 1]);
      places := PlacesAfter(states[n - 1], events[n - 1], places);
    }
  }

  // ---------------------------------------------------------------------------
  // Every tree can be brought to its end
  // ---------------------------------------------------------------------------

  /** An undisturbed obliterate up to the end of the run. */
  ghost predicate Going(g: Origin, states: seq<State>, events: seq<Event>, from: nat, places: seq<Place>) {
    && IsRun(states, events) && from < |events| && Undisturbed(states, events, from, |events|)
    && g == OriginOf(states[from], events[from]) && Tree(g, Last(states), places)
  }

  lemma GoesOn(g: Origin, states: seq<State>, events: seq<Event>, from: nat, places: seq<Place>, e: Event)
    returns (states': seq<State>, events': seq<Event>, places': seq<Place>)
    requires Going(g, states, events, from, places) && TreeStep(g, Last(states), e)
    ensures Going(g, states', events', from, places') && states <= states' && events <= events'
    ensures Last(states') == After(Last(states), e) && places' == PlacesAfter(Last(states), e, places)
  {
    states', events' := Grow(states, events, e);
    places' := PlacesAfter(Last(states), e, places);
    TreeStays(g, Last(states), places, e);
    forall i | from < i < |events'|
      ensures OfTree(events'[i], g.root, g.root)
    {
      assert i < |events| ==> events'[i] == events[i];
    }
  }

  /** The last task that has not ended has a step to take. */
  lemma SomeStep(g: Origin, s: State, places: seq<Place>) returns (e: Event)
    requires Tree(g, s, places) && !Finished(s.tasks[g.root])
    ensures TreeStep(g, s, e)
  {
    var id := LastUnfinished(s, g.root);
    assert TaskSound(g, s, places, id);
    if s.tasks[id].phase.Waiting? {
      assert forall c :: c in s.tasks[id].phase.children ==> id < c < |s.tasks|;
    }
    e := NextEvent(s.tasks[id], id);
  }

  lemma {:induction false} GoesOnToEnd(g: Origin, states: seq<State>, events: seq<Event>, from: nat, places: seq<Place>)
    returns (states': seq<State>, events': seq<Event>, places': seq<Place>)
    requires Going(g, states, events, from, places)
    ensures Going(g, states', events', from, places') && states <= states' && events <= events'
    ensures Finished(Last(states').tasks[g.root])
    ensures |Last(states).tasks| <= |Last(states').tasks|
    ensures forall j :: g.root <= j < |Last(states).tasks| && Finished(Last(states).tasks[j]) ==>
        Last(states').tasks[j] == Last(states).tasks[j]
    decreases AllLeft(g, Last(states).tasks[g.root..], places[g.root..])
  {
    var s := Last(states);
    if Finished(s.tasks[g.root]) {
      states', events', places' := states, events, places;
    } else {
      var e := SomeStep(g, s, places);
      StepShape(g, s, places, e);
      StepLeavesLess(g, s, places, e);
      states', events', places' := GoesOn(g, states, events, from, places, e);
      var t := Last(states');
      states', events', places' := GoesOnToEnd(g, states', events', from, places');
      assert forall j :: g.root <= j < |s.tasks| && Finished(s.tasks[j]) ==> t.tasks[j] == s.tasks[j];
    }
  }
}
