/** An obliterate and the tasks it spawns, side by side in any interleaving: what holds at every step, as long as none
    of them crashes and no other task moves. */
module ImmutableTrees {
  import opened Fragments
  import opened Snapshots
  import opened Purge
  import opened ImmutableProtocol
  import opened ImmutableSchedules
  import opened Routes

  /** Where the tree started: the store then, the address, and the number of its first task. */
  datatype Origin = Origin(store: Snapshot, a: Association, root: TaskId)

  /** Where a task stands in the tree. */
  datatype Place = Place(route: Route, parent: TaskId)

  function Mine(g: Origin, x: Hash): Association {
    Of(ScopeOf(g.a), x)
  }

  predicate OtherwiseShared(g: Origin, x: Hash) {
    Shared(g.store, ScopeOf(g.a), x)
  }

  predicate On(t: Task, x: Hash) {
    t.ObliterateTask? && t.a.hash == x
  }

  predicate DoneOn(t: Task, x: Hash, ok: bool) {
    On(t, x) && t.phase == ObliterateDone(ok)
  }

  ghost predicate Held(g: Origin, s: State, x: Hash) {
    exists j :: g.root <= j < |s.tasks| && HoldingOf(s.tasks[j], x)
  }

  ghost predicate FailedOn(g: Origin, s: State, x: Hash) {
    exists j :: g.root <= j < |s.tasks| && DoneOn(s.tasks[j], x, false)
  }

  ghost predicate Ended(g: Origin, s: State, x: Hash) {
    exists j :: g.root <= j < |s.tasks| && DoneOn(s.tasks[j], x, true)
  }

  ghost predicate Emptied(g: Origin, s: State, x: Hash) {
    exists j :: g.root <= j < |s.tasks| && On(s.tasks[j], x) && s.tasks[j].phase.Finalizing?
  }

  /** Some task has got past the lock on `x`, by a simple route. */
  ghost predicate LockedOnce(g: Origin, s: State, places: seq<Place>, x: Hash)
    requires |places| == |s.tasks|
  {
    exists j :: g.root <= j < |s.tasks| && On(s.tasks[j], x) && Simple(places[j].route)
      && !s.tasks[j].phase.Loading? && !s.tasks[j].phase.Locking?
  }

  ghost predicate ReferencesEnded(g: Origin, s: State, x: Hash) {
    Expands(g.store, x) ==> forall y :: y in References(g.store, x) ==> Ended(g, s, y)
  }

  /** What a task that got through leaves of `x`. */
  ghost predicate Processed(g: Origin, s: State, x: Hash)
    requires LiveAt(g.store, x)
  {
    && Mine(g, x) !in s.store.associations && x in s.store.metadata
    && s.store.metadata[x] == (if OtherwiseShared(g, x) then g.store.metadata[x] else TOMBSTONE)
    && Stored(g.store, x) && ReferencesEnded(g, s, x)
  }

  predicate SameRow(s: Snapshot, t: Snapshot, x: Hash) {
    (x in s.metadata <==> x in t.metadata) && (x in s.metadata ==> s.metadata[x] == t.metadata[x])
  }

  predicate SameObject(s: Snapshot, t: Snapshot, x: Hash) {
    (x in s.objects <==> x in t.objects) && (x in s.objects ==> s.objects[x] == t.objects[x])
  }

  /** A row is as it was, marked, or a tombstone, and each for a reason. */
  ghost predicate LiveRowSound(g: Origin, s: State, places: seq<Place>, x: Hash)
    requires LiveAt(g.store, x) && |places| == |s.tasks|
  {
    && x in s.store.metadata
    && var f, now := g.store.metadata[x], s.store.metadata[x];
       && (now == f || now == Marked(f) || now == TOMBSTONE)
       && (now == Marked(f) ==> Held(g, s, x) || FailedOn(g, s, x))
       && (now == TOMBSTONE ==> Processed(g, s, x) && x !in s.store.objects)
       && (now != f ==> LockedOnce(g, s, places, x))
       && (Ended(g, s, x) ==> Held(g, s, x) || FailedOn(g, s, x) || Processed(g, s, x))
  }

  ghost predicate ObjectSound(g: Origin, s: State, x: Hash) {
    || SameObject(g.store, s.store, x)
    || (LiveAt(g.store, x) && x in s.store.metadata && x !in s.store.objects &&
      (s.store.metadata[x] == TOMBSTONE || Emptied(g, s, x)))
  }

  ghost predicate RowSound(g: Origin, s: State, places: seq<Place>, x: Hash)
    requires |places| == |s.tasks|
  {
    && (if LiveAt(g.store, x) then LiveRowSound(g, s, places, x) else SameRow(g.store, s.store, x))
    && (Ended(g, s, x) ==> x in g.store.metadata && SizeOk(g.store.metadata[x]))
    && ObjectSound(g, s, x)
  }

  ghost predicate AssociationsSound(g: Origin, s: State) {
    && s.store.associations <= g.store.associations
    && forall a :: a in g.store.associations && a !in s.store.associations ==>
         a == Mine(g, a.hash) && LiveAt(g.store, a.hash) && a.hash in Reach(g.store, iset{g.a.hash})
  }

  /** A task past its load, on the hash `x`. */
  ghost predicate PhaseSound(g: Origin, s: State, places: seq<Place>, j: TaskId)
    requires j < |s.tasks| == |places| && s.tasks[j].ObliterateTask?
  {
    var x, phase := s.tasks[j].a.hash, s.tasks[j].phase;
    phase.Loading? || phase.ObliterateDone? || (
      && LiveAt(g.store, x) && phase.original == g.store.metadata[x] && SizeOk(phase.original) &&
        Simple(places[j].route)
      && (Holding(s.tasks[j]) ==> RowMarked(s.store, s.tasks[j]))
      && match phase
         case Locking(_) => true
         case Listing(f) => f.flags.fragmented
         case Waiting(_, unspawned, children) => Expands(g.store, x) &&
           ChildrenSound(g, s, places, j, unspawned, children)
         case _ =>
           && Stored(g.store, x) && ReferencesEnded(g, s, x)
           && (!phase.Unlinking? ==> Mine(g, x) !in s.store.associations)
           && (phase.Restoring? ==> OtherwiseShared(g, x))
           && (phase.Deleting? || phase.Finalizing? ==> !OtherwiseShared(g, x))
           && (phase.Finalizing? ==> x !in s.store.objects))
  }

  /** The tasks spawned so far stand at the first references, in order. */
  ghost predicate ChildrenSound(g: Origin, s: State, places: seq<Place>, j: TaskId, unspawned: seq<Hash>,
                                children: seq<TaskId>)
    requires j < |s.tasks| == |places| && s.tasks[j].ObliterateTask? && Expands(g.store, s.tasks[j].a.hash)
  {
    var references := References(g.store, s.tasks[j].a.hash);
    && |children| + |unspawned| == |references| && unspawned == references[|children|..]
    && forall i :: 0 <= i < |children| ==>
         j < children[i] < |s.tasks| && places[children[i]] == Place(Onto(places[j].route, i, references[i]), j)
  }

  ghost predicate TaskSound(g: Origin, s: State, places: seq<Place>, j: TaskId)
    requires j < |s.tasks| == |places|
  {
    var t := s.tasks[j];
    && t.ObliterateTask? && t.a == Mine(g, t.a.hash)
    && IsRoute(g.store, g.a.hash, places[j].route) && End(places[j].route) == t.a.hash
    && PhaseSound(g, s, places, j)
  }

  /** A task that has not ended is still waited for, and so is a failed one unless its parent has failed too. */
  ghost predicate ParentSound(g: Origin, s: State, places: seq<Place>, j: TaskId)
    requires j < |s.tasks| == |places|
  {
    var i, r := places[j].parent, places[j].route;
    && g.root <= i < j && s.tasks[i].ObliterateTask? && s.tasks[j].ObliterateTask?
    && |r.turns| > 0 && r == Onto(places[i].route, r.turns[|r.turns| - 1], s.tasks[j].a.hash)
    && var p, t, turn := s.tasks[i], s.tasks[j], r.turns[|r.turns| - 1];
       && !p.phase.Loading? && !p.phase.Locking? && !p.phase.Listing?
       && (p.phase.Waiting? ==> turn < |p.phase.children| && p.phase.children[turn] == j)
       && (!p.phase.Waiting? ==> Finished(t))
       && (t.phase == ObliterateDone(false) ==> p.phase.Waiting? || p.phase == ObliterateDone(false))
  }

  ghost predicate OneHolder(g: Origin, s: State) {
    forall i, j :: g.root <= i < j < |s.tasks| && Holding(s.tasks[i]) && Holding(s.tasks[j]) ==>
      s.tasks[i].a.hash != s.tasks[j].a.hash
  }

  ghost predicate Distinct(g: Origin, places: seq<Place>) {
    forall i, j :: g.root <= i < j < |places| ==> places[i].route != places[j].route
  }

  ghost predicate Rooted(g: Origin, s: State, places: seq<Place>) {
    && g.root < |s.tasks| == |places| && s.store.forceWrite == g.store.forceWrite
    && s.tasks[g.root].ObliterateTask? && s.tasks[g.root].a == g.a && places[g.root].route == Route([g.a.hash], [])
  }

  ghost predicate Tree(g: Origin, s: State, places: seq<Place>) {
    && Rooted(g, s, places)
    && (forall j :: g.root <= j < |s.tasks| ==> TaskSound(g, s, places, j))
    && (forall j :: g.root < j < |s.tasks| ==> ParentSound(g, s, places, j))
    && OneHolder(g, s) && Distinct(g, places)
    && (forall x :: RowSound(g, s, places, x))
    && AssociationsSound(g, s)
  }

  // ---------------------------------------------------------------------------
  // One step
  // ---------------------------------------------------------------------------

  /** A step of the tree. */
  predicate TreeStep(g: Origin, s: State, e: Event) {
    Enabled(s, e) && OfTree(e, g.root, g.root) && !e.Fetch?
  }

  function PlacesAfter(s: State, e: Event, places: seq<Place>): seq<Place>
    requires Enabled(s, e) && |places| == |s.tasks|
  {
    if e.Spawn? then
      var t := s.tasks[e.id];
      places + [Place(Onto(places[e.id].route, |t.phase.children|, t.phase.unspawned[0]), e.id)]
    else places
  }

  /** What any step leaves alone. */
  lemma StepShape(g: Origin, s: State, places: seq<Place>, e: Event)
    requires Tree(g, s, places) && TreeStep(g, s, e)
    ensures
      var u := After(s, e);
      && g.root <= e.id < |s.tasks| && s.tasks[e.id].ObliterateTask? && !Finished(s.tasks[e.id])
      && u.tasks[e.id].ObliterateTask? && u.tasks[e.id].a == s.tasks[e.id].a
      && |s.tasks| <= |u.tasks| == |PlacesAfter(s, e, places)| && (!e.Spawn? ==> |u.tasks| == |s.tasks|)
      && (forall j :: 0 <= j < |s.tasks| && j != e.id ==> u.tasks[j] == s.tasks[j])
      && (forall j :: 0 <= j < |s.tasks| ==> PlacesAfter(s, e, places)[j] == places[j])
      && (e.Spawn? ==>
            |u.tasks| == |s.tasks| + 1 && u.tasks[|s.tasks|].ObliterateTask? && u.tasks[|s.tasks|].phase == Loading)
      && u.store.forceWrite == s.store.forceWrite
      && u.store.associations == (if e.Advance? && s.tasks[e.id].phase.Unlinking?
                                  then s.store.associations - {s.tasks[e.id].a} else s.store.associations)
  {
    assert TaskSound(g, s, places, e.id);
  }

  /** And what it leaves alone of other hashes. */
  lemma OtherHashStands(g: Origin, s: State, places: seq<Place>, e: Event, x: Hash)
    requires Tree(g, s, places) && TreeStep(g, s, e) && s.tasks[e.id].ObliterateTask? && s.tasks[e.id].a.hash != x
    ensures SameRow(s.store, After(s, e).store, x) && SameObject(s.store, After(s, e).store, x)
    ensures Mine(g, x) in After(s, e).store.associations <==> Mine(g, x) in s.store.associations
  {
    StepShape(g, s, places, e);
    if e.Advance? {
      OtherHashesUntouched(s, e, x);
    }
  }

  lemma EndedStays(g: Origin, s: State, places: seq<Place>, e: Event, x: Hash)
    requires Tree(g, s, places) && TreeStep(g, s, e)
    ensures Ended(g, s, x) ==> Ended(g, After(s, e), x)
    ensures FailedOn(g, s, x) ==> FailedOn(g, After(s, e), x)
  {
    StepShape(g, s, places, e);
    if Ended(g, s, x) {
      var j :| g.root <= j < |s.tasks| && DoneOn(s.tasks[j], x, true);
      assert DoneOn(After(s, e).tasks[j], x, true);
    }
    if FailedOn(g, s, x) {
      var j :| g.root <= j < |s.tasks| && DoneOn(s.tasks[j], x, false);
      assert DoneOn(After(s, e).tasks[j], x, false);
    }
  }

  lemma ReferencesStayEnded(g: Origin, s: State, places: seq<Place>, e: Event, x: Hash)
    requires Tree(g, s, places) && TreeStep(g, s, e) && ReferencesEnded(g, s, x)
    ensures ReferencesEnded(g, After(s, e), x)
  {
    if Expands(g.store, x) {
      forall y | y in References(g.store, x)
        ensures Ended(g, After(s, e), y)
      {
        EndedStays(g, s, places, e, y);
      }
    }
  }

  lemma LockedOnceStays(g: Origin, s: State, places: seq<Place>, e: Event, x: Hash)
    requires Tree(g, s, places) && TreeStep(g, s, e) && LockedOnce(g, s, places, x)
    ensures |PlacesAfter(s, e, places)| == |After(s, e).tasks|
    ensures LockedOnce(g, After(s, e), PlacesAfter(s, e, places), x)
  {
    StepShape(g, s, places, e);
    var j :| g.root <= j < |s.tasks| && On(s.tasks[j], x) && Simple(places[j].route)
      && !s.tasks[j].phase.Loading? && !s.tasks[j].phase.Locking?;
    var t := After(s, e).tasks[j];
    assert On(t, x) && !t.phase.Loading? && !t.phase.Locking?;
  }

  // --- rows of other hashes ---

  lemma OtherTasksStand(g: Origin, s: State, places: seq<Place>, e: Event, x: Hash)
    requires Tree(g, s, places) && TreeStep(g, s, e) && s.tasks[e.id].ObliterateTask? && s.tasks[e.id].a.hash != x
    ensures Held(g, s, x) ==> Held(g, After(s, e), x)
    ensures Emptied(g, s, x) ==> Emptied(g, After(s, e), x)
    ensures Ended(g, After(s, e), x) ==> Ended(g, s, x)
  {
    StepShape(g, s, places, e);
    var u := After(s, e);
    if Held(g, s, x) {
      var j :| g.root <= j < |s.tasks| && HoldingOf(s.tasks[j], x);
      assert HoldingOf(u.tasks[j], x);
    }
    if Emptied(g, s, x) {
      var j :| g.root <= j < |s.tasks| && On(s.tasks[j], x) && s.tasks[j].phase.Finalizing?;
      assert On(u.tasks[j], x);
    }
    if Ended(g, u, x) {
      var j :| g.root <= j < |u.tasks| && DoneOn(u.tasks[j], x, true);
      assert DoneOn(s.tasks[j], x, true);
    }
  }

  lemma OtherRowStaysSound(g: Origin, s: State, places: seq<Place>, e: Event, x: Hash)
    requires Tree(g, s, places) && TreeStep(g, s, e) && s.tasks[e.id].ObliterateTask? && s.tasks[e.id].a.hash != x
    ensures |PlacesAfter(s, e, places)| == |After(s, e).tasks| && RowSound(g, After(s, e), PlacesAfter(s, e, places), x)
  {
    StepShape(g, s, places, e);
    OtherHashStands(g, s, places, e, x);
    OtherTasksStand(g, s, places, e, x);
    EndedStays(g, s, places, e, x);
    assert RowSound(g, s, places, x);
    if ReferencesEnded(g, s, x) {
      ReferencesStayEnded(g, s, places, e, x);
    }
    if LockedOnce(g, s, places, x) {
      LockedOnceStays(g, s, places, e, x);
    }
  }

  // --- the hash of the task that moves ---

  /** While a task has not ended, all above it on its route are marked. */
  lemma {:induction false} AncestorsMarked(g: Origin, s: State, places: seq<Place>, j: TaskId, m: nat)
    requires Tree(g, s, places) && g.root <= j < |s.tasks| && !Finished(s.tasks[j]) && m < |places[j].route.turns|
    ensures m < |places[j].route.hashes| && !LiveAt(s.store, places[j].route.hashes[m])
    decreases j
  {
    assert TaskSound(g, s, places, j) && j > g.root;
    assert ParentSound(g, s, places, j);
    var i := places[j].parent;
    assert TaskSound(g, s, places, i) && s.tasks[i].phase.Waiting?;
    if m < |places[i].route.turns| {
      AncestorsMarked(g, s, places, i, m);
    }
  }

  /** So a task that finds its row live stands at the end of a simple route. */
  lemma LiveIsSimple(g: Origin, s: State, places: seq<Place>, j: TaskId)
    requires Tree(g, s, places) && g.root <= j < |s.tasks| && !Finished(s.tasks[j])
    requires s.tasks[j].ObliterateTask? && LiveAt(s.store, s.tasks[j].a.hash)
    ensures Simple(places[j].route)
  {
    var r := places[j].route;
    assert TaskSound(g, s, places, j);
    forall m | 0 <= m < |r.turns|
      ensures r.hashes[m] != End(r)
    {
      AncestorsMarked(g, s, places, j, m);
    }
    if j > g.root {
      assert ParentSound(g, s, places, j) && TaskSound(g, s, places, places[j].parent);
    }
  }

  /** The holder of a hash is the only one, and its object is as it was until it deletes it. */
  lemma HolderAlone(g: Origin, s: State, places: seq<Place>, id: TaskId)
    requires Tree(g, s, places) && g.root <= id < |s.tasks| && Holding(s.tasks[id])
    ensures forall j :: g.root <= j < |s.tasks| && HoldingOf(s.tasks[j], s.tasks[id].a.hash) ==> j == id
    ensures !s.tasks[id].phase.Finalizing? ==> SameObject(g.store, s.store, s.tasks[id].a.hash)
    ensures LiveAt(g.store, s.tasks[id].a.hash) && Live(s.tasks[id].phase.original)
  {
    var x := s.tasks[id].a.hash;
    assert TaskSound(g, s, places, id) && RowSound(g, s, places, x);
    if Emptied(g, s, x) {
      var j :| g.root <= j < |s.tasks| && On(s.tasks[j], x) && s.tasks[j].phase.Finalizing?;
      assert HoldingOf(s.tasks[j], x);
    }
  }

  /** The task that moves and the row of its hash after the step. */
  ghost predicate OwnSound(g: Origin, s: State, places: seq<Place>, e: Event)
    requires TreeStep(g, s, e) && |places| == |s.tasks|
  {
    var u, places' := After(s, e), PlacesAfter(s, e, places);
    && e.id < |u.tasks| == |places'| && s.tasks[e.id].ObliterateTask?
    && TaskSound(g, u, places', e.id) && RowSound(g, u, places', s.tasks[e.id].a.hash)
  }

  lemma IdleKeepsHolder(g: Origin, s: State, places: seq<Place>, e: Event)
    requires Tree(g, s, places) && TreeStep(g, s, e) && e.Advance? && s.tasks[e.id].ObliterateTask?
    requires s.tasks[e.id].phase.Loading? || s.tasks[e.id].phase.Locking?
    ensures Held(g, s, s.tasks[e.id].a.hash) ==> Held(g, After(s, e), s.tasks[e.id].a.hash)
    ensures Emptied(g, s, s.tasks[e.id].a.hash) ==> Emptied(g, After(s, e), s.tasks[e.id].a.hash)
  {
    var x, u := s.tasks[e.id].a.hash, After(s, e);
    StepShape(g, s, places, e);
    if Held(g, s, x) {
      var j :| g.root <= j < |s.tasks| && HoldingOf(s.tasks[j], x);
      assert HoldingOf(u.tasks[j], x);
    }
    if Emptied(g, s, x) {
      var j :| g.root <= j < |s.tasks| && On(s.tasks[j], x) && s.tasks[j].phase.Finalizing?;
      assert On(u.tasks[j], x);
    }
  }

  /** A step of a task that does not hold the row and leaves the store alone. */
  lemma IdleKeepsRow(g: Origin, s: State, places: seq<Place>, e: Event)
    requires Tree(g, s, places) && TreeStep(g, s, e) && e.Advance? && s.tasks[e.id].ObliterateTask?
    requires After(s, e).store == s.store
    requires s.tasks[e.id].phase.Loading? || s.tasks[e.id].phase.Locking?
    ensures |PlacesAfter(s, e, places)| == |After(s, e).tasks|
    ensures RowSound(g, After(s, e), PlacesAfter(s, e, places), s.tasks[e.id].a.hash)
  {
    var x, u := s.tasks[e.id].a.hash, After(s, e);
    StepShape(g, s, places, e);
    assert RowSound(g, s, places, x);
    EndedStays(g, s, places, e, x);
    IdleKeepsHolder(g, s, places, e);
    if ReferencesEnded(g, s, x) {
      ReferencesStayEnded(g, s, places, e, x);
    }
    if LockedOnce(g, s, places, x) {
      LockedOnceStays(g, s, places, e, x);
    }
    if Ended(g, u, x) && !Ended(g, s, x) {
      var j :| g.root <= j < |u.tasks| && DoneOn(u.tasks[j], x, true);
      assert j == e.id;
    }
  }

  lemma LoadStaysSound(g: Origin, s: State, places: seq<Place>, e: Event)
    requires Tree(g, s, places) && TreeStep(g, s, e) && e.Advance? && s.tasks[e.id].ObliterateTask?
    requires s.tasks[e.id].phase.Loading?
    ensures OwnSound(g, s, places, e)
  {
    var x := s.tasks[e.id].a.hash;
    StepShape(g, s, places, e);
    assert TaskSound(g, s, places, e.id) && RowSound(g, s, places, x);
    if LiveAt(s.store, x) {
      LiveIsSimple(g, s, places, e.id);
    }
    IdleKeepsRow(g, s, places, e);
  }

  /** A marked row that task `id` holds. */
  lemma HeldRowSound(g: Origin, s: State, places: seq<Place>, id: TaskId)
    requires |places| == |s.tasks| && g.root <= id < |s.tasks| && Holding(s.tasks[id]) && Simple(places[id].route)
    requires
      var x := s.tasks[id].a.hash;
      && LiveAt(g.store, x) && SizeOk(g.store.metadata[x])
      && x in s.store.metadata && s.store.metadata[x] == Marked(g.store.metadata[x])
      && (if s.tasks[id].phase.Finalizing? then x !in s.store.objects else SameObject(g.store, s.store, x))
    ensures RowSound(g, s, places, s.tasks[id].a.hash)
  {
    var x := s.tasks[id].a.hash;
    assert HoldingOf(s.tasks[id], x) && On(s.tasks[id], x);
  }

  /** One that it has given up. */
  lemma FailedRowSound(g: Origin, s: State, places: seq<Place>, id: TaskId, x: Hash)
    requires |places| == |s.tasks| && g.root <= id < |s.tasks| && DoneOn(s.tasks[id], x, false)
    requires Simple(places[id].route)
    requires LiveAt(g.store, x) && SizeOk(g.store.metadata[x])
    requires x in s.store.metadata && s.store.metadata[x] == Marked(g.store.metadata[x])
    requires SameObject(g.store, s.store, x)
    ensures RowSound(g, s, places, x)
  {
    assert On(s.tasks[id], x);
  }

  /** And one that it has got through with. */
  lemma ProcessedRowSound(g: Origin, s: State, places: seq<Place>, id: TaskId, x: Hash)
    requires |places| == |s.tasks| && g.root <= id < |s.tasks| && DoneOn(s.tasks[id], x, true)
    requires Simple(places[id].route)
    requires LiveAt(g.store, x) && Processed(g, s, x)
    requires if OtherwiseShared(g, x) then SameObject(g.store, s.store, x) else x !in s.store.objects
    ensures RowSound(g, s, places, x)
  {
    assert On(s.tasks[id], x);
  }

  /** A row still as it was is live, and its object is as it was. */
  lemma FreshRow(g: Origin, s: State, places: seq<Place>, x: Hash)
    requires Tree(g, s, places) && LiveAt(g.store, x) && SameRow(g.store, s.store, x)
    ensures LiveAt(s.store, x) && SameObject(g.store, s.store, x)
  {
    assert RowSound(g, s, places, x);
    forall j | g.root <= j < |s.tasks| && On(s.tasks[j], x)
      ensures !s.tasks[j].phase.Finalizing?
    {
      assert TaskSound(g, s, places, j);
    }
  }

  lemma LockStaysSound(g: Origin, s: State, places: seq<Place>, e: Event)
    requires Tree(g, s, places) && TreeStep(g, s, e) && e.Advance? && s.tasks[e.id].ObliterateTask?
    requires s.tasks[e.id].phase.Locking?
    ensures OwnSound(g, s, places, e)
  {
    var t, u := s.tasks[e.id], After(s, e);
    var x := t.a.hash;
    StepShape(g, s, places, e);
    assert TaskSound(g, s, places, e.id) && RowSound(g, s, places, x);
    if s.store.metadata[x] == t.phase.original {
      FreshRow(g, s, places, x);
      HeldRowSound(g, u, places, e.id);
    } else {
      IdleKeepsRow(g, s, places, e);
    }
  }

  lemma ListStaysSound(g: Origin, s: State, places: seq<Place>, e: Event)
    requires Tree(g, s, places) && TreeStep(g, s, e) && e.Advance? && s.tasks[e.id].ObliterateTask?
    requires s.tasks[e.id].phase.Listing?
    ensures OwnSound(g, s, places, e)
  {
    var x, u := s.tasks[e.id].a.hash, After(s, e);
    StepShape(g, s, places, e);
    assert TaskSound(g, s, places, e.id);
    HolderAlone(g, s, places, e.id);
    if u.tasks[e.id].phase.Waiting? {
      HeldRowSound(g, u, places, e.id);
    } else {
      FailedRowSound(g, u, places, e.id, x);
    }
  }

  lemma UnlinkStaysSound(g: Origin, s: State, places: seq<Place>, e: Event)
    requires Tree(g, s, places) && TreeStep(g, s, e) && e.Advance? && s.tasks[e.id].ObliterateTask?
    requires s.tasks[e.id].phase.Unlinking? || s.tasks[e.id].phase.Counting?
    ensures OwnSound(g, s, places, e)
  {
    var x, u := s.tasks[e.id].a.hash, After(s, e);
    StepShape(g, s, places, e);
    assert TaskSound(g, s, places, e.id);
    HolderAlone(g, s, places, e.id);
    HeldRowSound(g, u, places, e.id);
    ReferencesStayEnded(g, s, places, e, x);
    if s.tasks[e.id].phase.Counting? {
      StillShared(g, s, x);
    }
  }

  /** Without this tree's association, a hash is associated if others share it. */
  lemma StillShared(g: Origin, s: State, x: Hash)
    requires AssociationsSound(g, s) && Mine(g, x) !in s.store.associations
    ensures (exists a :: a in s.store.associations && a.hash == x) <==> OtherwiseShared(g, x)
  {
  }

  lemma RestoreStaysSound(g: Origin, s: State, places: seq<Place>, e: Event)
    requires Tree(g, s, places) && TreeStep(g, s, e) && e.Advance? && s.tasks[e.id].ObliterateTask?
    requires s.tasks[e.id].phase.Restoring?
    ensures OwnSound(g, s, places, e)
  {
    var x, u := s.tasks[e.id].a.hash, After(s, e);
    StepShape(g, s, places, e);
    assert TaskSound(g, s, places, e.id);
    HolderAlone(g, s, places, e.id);
    ReferencesStayEnded(g, s, places, e, x);
    ProcessedRowSound(g, u, places, e.id, x);
  }

  lemma DeleteStaysSound(g: Origin, s: State, places: seq<Place>, e: Event)
    requires Tree(g, s, places) && TreeStep(g, s, e) && e.Advance? && s.tasks[e.id].ObliterateTask?
    requires s.tasks[e.id].phase.Deleting?
    ensures OwnSound(g, s, places, e)
  {
    var x, u := s.tasks[e.id].a.hash, After(s, e);
    StepShape(g, s, places, e);
    assert TaskSound(g, s, places, e.id);
    ReferencesStayEnded(g, s, places, e, x);
    HeldRowSound(g, u, places, e.id);
  }

  lemma FinalizeStaysSound(g: Origin, s: State, places: seq<Place>, e: Event)
    requires Tree(g, s, places) && TreeStep(g, s, e) && e.Advance? && s.tasks[e.id].ObliterateTask?
    requires s.tasks[e.id].phase.Finalizing?
    ensures OwnSound(g, s, places, e)
  {
    var x, u := s.tasks[e.id].a.hash, After(s, e);
    StepShape(g, s, places, e);
    assert TaskSound(g, s, places, e.id);
    ReferencesStayEnded(g, s, places, e, x);
    ProcessedRowSound(g, u, places, e.id, x);
  }

  lemma SpawnStaysSound(g: Origin, s: State, places: seq<Place>, e: Event)
    requires Tree(g, s, places) && TreeStep(g, s, e) && e.Spawn?
    ensures OwnSound(g, s, places, e)
    ensures |PlacesAfter(s, e, places)| == |After(s, e).tasks|
    ensures TaskSound(g, After(s, e), PlacesAfter(s, e, places), |s.tasks|)
  {
    var u, places' := After(s, e), PlacesAfter(s, e, places);
    StepShape(g, s, places, e);
    assert TaskSound(g, s, places, e.id);
    HolderAlone(g, s, places, e.id);
    HeldRowSound(g, u, places', e.id);
    var t := s.tasks[e.id];
    var turn, next := |t.phase.children|, t.phase.unspawned[0];
    assert References(g.store, t.a.hash)[turn] == next;
    OntoIsRoute(g.store, g.a.hash, places[e.id].route, turn, next);
    assert u.tasks[|s.tasks|] == ObliterateTask(t.a.(hash := next), Loading);
  }

  lemma JoinStaysSound(g: Origin, s: State, places: seq<Place>, e: Event)
    requires Tree(g, s, places) && TreeStep(g, s, e) && e.Join?
    ensures OwnSound(g, s, places, e)
  {
    var t, u := s.tasks[e.id], After(s, e);
    var x := t.a.hash;
    StepShape(g, s, places, e);
    assert TaskSound(g, s, places, e.id);
    HolderAlone(g, s, places, e.id);
    if u.tasks[e.id].phase.Unlinking? {
      HeldRowSound(g, u, places, e.id);
      forall y | y in References(g.store, x)
        ensures Ended(g, u, y)
      {
        var i :| 0 <= i < |References(g.store, x)| && References(g.store, x)[i] == y;
        var c := t.phase.children[i];
        assert TaskSound(g, s, places, c) && c in t.phase.children;
        assert DoneOn(u.tasks[c], y, true);
      }
    } else {
      FailedRowSound(g, u, places, e.id, x);
    }
  }

  lemma OwnStaysSound(g: Origin, s: State, places: seq<Place>, e: Event)
    requires Tree(g, s, places) && TreeStep(g, s, e)
    ensures OwnSound(g, s, places, e)
  {
    StepShape(g, s, places, e);
    if e.Spawn? {
      SpawnStaysSound(g, s, places, e);
    } else if e.Join? {
      JoinStaysSound(g, s, places, e);
    } else {
      match s.tasks[e.id].phase
      case Loading => LoadStaysSound(g, s, places, e);
      case Locking(_) => LockStaysSound(g, s, places, e);
      case Listing(_) => ListStaysSound(g, s, places, e);
      case Unlinking(_) => UnlinkStaysSound(g, s, places, e);
      case Counting(_) => UnlinkStaysSound(g, s, places, e);
      case Restoring(_) => RestoreStaysSound(g, s, places, e);
      case Deleting(_) => DeleteStaysSound(g, s, places, e);
      case Finalizing(_) => FinalizeStaysSound(g, s, places, e);
    }
  }

  // --- the other tasks ---

  /** A row that one task holds is not changed by another. */
  lemma HeldRowStands(g: Origin, s: State, places: seq<Place>, e: Event, j: TaskId)
    requires Tree(g, s, places) && TreeStep(g, s, e) && g.root <= j < |s.tasks| && j != e.id && Holding(s.tasks[j])
    ensures SameRow(s.store, After(s, e).store, s.tasks[j].a.hash)
    ensures SameObject(s.store, After(s, e).store, s.tasks[j].a.hash)
  {
    var x := s.tasks[j].a.hash;
    StepShape(g, s, places, e);
    assert TaskSound(g, s, places, j) && TaskSound(g, s, places, e.id);
    if s.tasks[e.id].a.hash != x {
      OtherHashStands(g, s, places, e, x);
    } else {
      HolderAlone(g, s, places, j);
      assert HoldingOf(s.tasks[j], x) && !HoldingOf(s.tasks[e.id], x);
    }
  }

  lemma OtherTaskStaysSound(g: Origin, s: State, places: seq<Place>, e: Event, j: TaskId)
    requires Tree(g, s, places) && TreeStep(g, s, e) && g.root <= j < |s.tasks| && j != e.id
    ensures |PlacesAfter(s, e, places)| == |After(s, e).tasks| && j < |After(s, e).tasks|
    ensures TaskSound(g, After(s, e), PlacesAfter(s, e, places), j)
  {
    StepShape(g, s, places, e);
    assert TaskSound(g, s, places, j);
    if Holding(s.tasks[j]) {
      HeldRowStands(g, s, places, e, j);
    }
    if ReferencesEnded(g, s, s.tasks[j].a.hash) {
      ReferencesStayEnded(g, s, places, e, s.tasks[j].a.hash);
    }
  }

  lemma ParentStaysSound(g: Origin, s: State, places: seq<Place>, e: Event, j: TaskId)
    requires Tree(g, s, places) && TreeStep(g, s, e) && g.root < j < |After(s, e).tasks|
    ensures |PlacesAfter(s, e, places)| == |After(s, e).tasks|
    ensures ParentSound(g, After(s, e), PlacesAfter(s, e, places), j)
  {
    StepShape(g, s, places, e);
    if j < |s.tasks| {
      assert ParentSound(g, s, places, j);
      assert e.Join? && places[j].parent == e.id ==> j in s.tasks[e.id].phase.children;
    } else {
      assert TaskSound(g, s, places, e.id);
    }
  }

  lemma OneHolderStays(g: Origin, s: State, places: seq<Place>, e: Event)
    requires Tree(g, s, places) && TreeStep(g, s, e)
    ensures OneHolder(g, After(s, e))
  {
    StepShape(g, s, places, e);
    var u := After(s, e);
    forall j | g.root <= j < |u.tasks| && j != e.id && Holding(u.tasks[j]) && Holding(u.tasks[e.id])
      ensures u.tasks[j].a.hash != u.tasks[e.id].a.hash
    {
      assert j < |s.tasks| && TaskSound(g, s, places, j) && TaskSound(g, s, places, e.id);
    }
  }

  lemma DistinctStays(g: Origin, s: State, places: seq<Place>, e: Event)
    requires Tree(g, s, places) && TreeStep(g, s, e)
    ensures Distinct(g, PlacesAfter(s, e, places))
  {
    if e.Spawn? {
      StepShape(g, s, places, e);
      var grown, t := PlacesAfter(s, e, places), s.tasks[e.id];
      var r := grown[|s.tasks|].route;
      forall j | g.root <= j < |s.tasks|
        ensures places[j].route != r
      {
        if j > g.root && places[j].route == r {
          assert ParentSound(g, s, places, j) && TaskSound(g, s, places, places[j].parent) &&
            TaskSound(g, s, places, e.id);
          OntoInjective(places[e.id].route, |t.phase.children|, t.phase.unspawned[0],
                        places[places[j].parent].route, r.turns[|r.turns| - 1], s.tasks[j].a.hash);
        }
      }
    }
  }

  lemma OntoInjective(p: Route, m: nat, h: Hash, q: Route, n: nat, k: Hash)
    requires Onto(p, m, h) == Onto(q, n, k)
    ensures p == q && m == n
  {
    var r := Onto(p, m, h);
    assert p.hashes == r.hashes[..|r.hashes| - 1] == q.hashes && p.turns == r.turns[..|r.turns| - 1] == q.turns;
    assert m == r.turns[|r.turns| - 1] == n;
  }

  lemma AssociationsStaySound(g: Origin, s: State, places: seq<Place>, e: Event)
    requires Tree(g, s, places) && TreeStep(g, s, e)
    ensures AssociationsSound(g, After(s, e))
  {
    StepShape(g, s, places, e);
    assert TaskSound(g, s, places, e.id);
    RouteReaches(g.store, g.a.hash, places[e.id].route);
  }

  lemma TreeStays(g: Origin, s: State, places: seq<Place>, e: Event)
    requires Tree(g, s, places) && TreeStep(g, s, e)
    ensures Tree(g, After(s, e), PlacesAfter(s, e, places))
  {
    var u, places' := After(s, e), PlacesAfter(s, e, places);
    StepShape(g, s, places, e);
    OwnStaysSound(g, s, places, e);
    OneHolderStays(g, s, places, e);
    DistinctStays(g, s, places, e);
    AssociationsStaySound(g, s, places, e);
    forall j | g.root <= j < |u.tasks|
      ensures TaskSound(g, u, places', j)
    {
      if j == |s.tasks| {
        SpawnStaysSound(g, s, places, e);
      } else if j != e.id {
        OtherTaskStaysSound(g, s, places, e, j);
      }
    }
    forall j | g.root < j < |u.tasks|
      ensures ParentSound(g, u, places', j)
    {
      ParentStaysSound(g, s, places, e, j);
    }
    forall x
      ensures RowSound(g, u, places', x)
    {
      if x != s.tasks[e.id].a.hash {
        OtherRowStaysSound(g, s, places, e, x);
      }
    }
  }
}
