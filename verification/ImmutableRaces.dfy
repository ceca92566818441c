/** Interleavings that the premises of the safety theorems exclude: exactly which statements do the damage, what mends
    it, and runs that come to it without any crash. */
module ImmutableRaces {
  import opened ByteStrings
  import opened Outcomes
  import opened Fragments
  import opened Snapshots
  import opened Purge
  import opened StoreContract
  import opened ImmutableProtocol
  import opened ImmutableSafety
  import opened ImmutableSchedules
  import opened Routes
  import opened ImmutableOutcomes
  import opened ImmutableCollisions

  /** The task that takes its next statement in `e` works on `h`. */
  predicate StepsOn(s: State, e: Event, h: Hash)
    requires Enabled(s, e)
  {
    e.Advance? && !s.tasks[e.id].CopyTask? && s.tasks[e.id].a.hash == h
  }

  // ---------------------------------------------------------------------------
  // Live rows without a payload
  // ---------------------------------------------------------------------------

  /** A live row without its payload, which no get can serve. */
  predicate Lost(s: Snapshot, h: Hash) {
    LiveAt(s, h) && h !in s.objects
  }

  /** The three statements that can lose a payload, with the guard under which they do: indexing a put whose object has
      gone, deleting the object under a row that has been made live again, giving back a row whose object has gone. */
  predicate LosesPayload(s: State, e: Event, h: Hash)
    requires Enabled(s, e)
  {
    && StepsOn(s, e, h)
    && var t := s.tasks[e.id];
       || (t.PutTask? && t.put.PutIndexing? && Live(t.f) && h !in s.store.objects)
       || (t.ObliterateTask? && t.phase.Deleting? && LiveAt(s.store, h))
       || (t.ObliterateTask? && t.phase.Restoring? && Live(t.phase.original) && h !in s.store.objects
           && h in s.store.metadata && s.store.metadata[h] == Marked(t.phase.original))
  }

  /** The three that mend it: writing the object again, marking the row, indexing a put that is itself flagged. */
  predicate MendsPayload(s: State, e: Event, h: Hash)
    requires Enabled(s, e)
  {
    && StepsOn(s, e, h)
    && var t := s.tasks[e.id];
       || (t.PutTask? && t.put.PutWriting?)
       || (t.PutTask? && t.put.PutIndexing? && !Live(t.f))
       || (t.ObliterateTask? && t.phase.Locking? && h in s.store.metadata && s.store.metadata[h] == t.phase.original)
  }

  /** Step by step, from any state. */
  lemma LossIsExactly(s: State, e: Event, h: Hash)
    requires Enabled(s, e)
    ensures Lost(After(s, e).store, h) <==> LosesPayload(s, e, h) || (Lost(s.store, h) && !MendsPayload(s, e, h))
  {
    OthersUntouched(s, e);
    if e.Advance? && !StepsOn(s, e, h) {
      OtherHashesUntouched(s, e, h);
    }
  }

  /** Some step up to `n` loses the payload, and none after that mends it. */
  ghost predicate LostSince(states: seq<State>, events: seq<Event>, h: Hash, n: nat)
    requires IsRun(states, events) && n <= |events|
  {
    exists i: nat :: LosesAt(states, events, h, i, n)
  }

  ghost predicate LosesAt(states: seq<State>, events: seq<Event>, h: Hash, i: nat, n: nat)
    requires IsRun(states, events) && n <= |events|
  {
    i < n && LosesPayload(states[i], events[i], h) && forall m :: i < m < n ==> !MendsPayload(states[m], events[m], h)
  }

  lemma LostSinceStep(states: seq<State>, events: seq<Event>, h: Hash, n: nat)
    requires IsRun(states, events) && 0 < n <= |events|
    ensures LostSince(states, events, h, n) <==>
            || LosesPayload(states[n - 1], events[n - 1], h)
            || (LostSince(states, events, h, n - 1) && !MendsPayload(states[n - 1], events[n - 1], h))
  {
    if LosesPayload(states[n - 1], events[n - 1], h) {
      assert LosesAt(states, events, h, n - 1, n);
    } else if LostSince(states, events, h, n) {
      var i: nat :| LosesAt(states, events, h, i, n);
      assert LosesAt(states, events, h, i, n - 1);
    } else if LostSince(states, events, h, n - 1) && !MendsPayload(states[n - 1], events[n - 1], h) {
      var i: nat :| LosesAt(states, events, h, i, n - 1);
      assert LosesAt(states, events, h, i, n);
    }
  }

  /** Over every run, with no premise. */
  lemma {:induction false} PayloadIsLostExactly(states: seq<State>, events: seq<Event>, h: Hash, n: nat)
    requires IsRun(states, events) && n <= |events|
    ensures Lost(states[n].store, h) <==> LostSince(states, events, h, n)
  {
    if n > 0 {
      PayloadIsLostExactly(states, events, h, n - 1);
      LossIsExactly(states[n - 1], events[n - 1], h);
      LostSinceStep(states, events, h, n);
    }
  }

  // ---------------------------------------------------------------------------
  // Associations without a payload
  // ---------------------------------------------------------------------------

  predicate Dangles(s: Snapshot, h: Hash) {
    !Unassociated(s, h) && h !in s.objects
  }

  /** The three statements that can leave an association without its object: a copy or a put associating after the
      object has gone, and deleting the object while an association is there. */
  predicate LeavesDangling(s: State, e: Event, h: Hash)
    requires Enabled(s, e)
  {
    && e.Advance?
    && var t := s.tasks[e.id];
       || (Inserting(t, h) && h !in s.store.objects)
       || (t.PutTask? && t.a.hash == h && t.put.PutIndexing? && h !in s.store.objects)
       || (t.ObliterateTask? && t.a.hash == h && t.phase.Deleting? && !Unassociated(s.store, h))
  }

  /** And the two that end it: writing the object again, and dropping the last association. */
  predicate EndsDangling(s: State, e: Event, h: Hash)
    requires Enabled(s, e)
  {
    && StepsOn(s, e, h)
    && var t := s.tasks[e.id];
       || (t.PutTask? && t.put.PutWriting?)
       || (t.ObliterateTask? && t.phase.Unlinking? && forall a :: a in s.store.associations && a.hash == h ==> a == t.a)
  }

  lemma DanglingIsExactly(s: State, e: Event, h: Hash)
    requires Enabled(s, e)
    ensures Dangles(After(s, e).store, h) <==>
        LeavesDangling(s, e, h) || (Dangles(s.store, h) && !EndsDangling(s, e, h))
  {
    OthersUntouched(s, e);
    if e.Advance? && !StepsOn(s, e, h) {
      OtherHashesUntouched(s, e, h);
    }
    if e.Advance? {
      AssociationsAfter(s, e, h);
    }
  }

  /** What a statement does to the associations of `h`. */
  lemma AssociationsAfter(s: State, e: Event, h: Hash)
    requires Enabled(s, e) && e.Advance?
    ensures
      var t, u := s.tasks[e.id], After(s, e);
      Unassociated(u.store, h) <==>
        if Inserting(t, h) || (t.PutTask? && t.a.hash == h && t.put.PutIndexing?) then false
        else if t.ObliterateTask? && t.a.hash == h && t.phase.Unlinking?
        then forall a :: a in s.store.associations && a.hash == h ==> a == t.a
        else Unassociated(s.store, h)
  {
    var t, u := s.tasks[e.id], After(s, e);
    if Inserting(t, h) {
      assert t.destination in u.store.associations;
    } else if t.PutTask? && t.a.hash == h && t.put.PutIndexing? {
      assert t.a in u.store.associations;
    } else if !Unassociated(s.store, h) {
      var a :| a in s.store.associations && a.hash == h;
      assert a in u.store.associations || a == t.a;
    }
  }

  /** Some step up to `n` leaves an association dangling, and none after that ends it. */
  ghost predicate DanglingSince(states: seq<State>, events: seq<Event>, h: Hash, n: nat)
    requires IsRun(states, events) && n <= |events|
  {
    exists i: nat :: DanglesFrom(states, events, h, i, n)
  }

  ghost predicate DanglesFrom(states: seq<State>, events: seq<Event>, h: Hash, i: nat, n: nat)
    requires IsRun(states, events) && n <= |events|
  {
    i < n && LeavesDangling(states[i], events[i], h) && forall m :: i < m < n ==> !EndsDangling(states[m], events[m], h)
  }

  lemma DanglingSinceStep(states: seq<State>, events: seq<Event>, h: Hash, n: nat)
    requires IsRun(states, events) && 0 < n <= |events|
    ensures DanglingSince(states, events, h, n) <==>
            || LeavesDangling(states[n - 1], events[n - 1], h)
            || (DanglingSince(states, events, h, n - 1) && !EndsDangling(states[n - 1], events[n - 1], h))
  {
    if LeavesDangling(states[n - 1], events[n - 1], h) {
      assert DanglesFrom(states, events, h, n - 1, n);
    } else if DanglingSince(states, events, h, n) {
      var i: nat :| DanglesFrom(states, events, h, i, n);
      assert DanglesFrom(states, events, h, i, n - 1);
    } else if DanglingSince(states, events, h, n - 1) && !EndsDangling(states[n - 1], events[n - 1], h) {
      var i: nat :| DanglesFrom(states, events, h, i, n - 1);
      assert DanglesFrom(states, events, h, i, n);
    }
  }

  /** Over every run, with no premise. */
  lemma {:induction false} AssociationsDangleExactly(states: seq<State>, events: seq<Event>, h: Hash, n: nat)
    requires IsRun(states, events) && n <= |events|
    ensures Dangles(states[n].store, h) <==> DanglingSince(states, events, h, n)
  {
    if n > 0 {
      AssociationsDangleExactly(states, events, h, n - 1);
      DanglingIsExactly(states[n - 1], events[n - 1], h);
      DanglingSinceStep(states, events, h, n);
    }
  }

  // ---------------------------------------------------------------------------
  // The order of statements alone
  // ---------------------------------------------------------------------------

  predicate WritesObject(s: State, e: Event, h: Hash)
    requires Enabled(s, e)
  {
    StepsOn(s, e, h) && s.tasks[e.id].PutTask? && s.tasks[e.id].put.PutWriting?
  }

  predicate DeletesObject(s: State, e: Event, h: Hash)
    requires Enabled(s, e)
  {
    StepsOn(s, e, h) && s.tasks[e.id].ObliterateTask? && s.tasks[e.id].phase.Deleting?
  }

  /** Some put writes the object of `h` before `n`, and no obliterate deletes it after that. */
  ghost predicate WrittenLast(states: seq<State>, events: seq<Event>, h: Hash, n: nat)
    requires IsRun(states, events) && n <= |events|
  {
    exists i: nat :: WrittenAt(states, events, h, i, n)
  }

  ghost predicate WrittenAt(states: seq<State>, events: seq<Event>, h: Hash, i: nat, n: nat)
    requires IsRun(states, events) && n <= |events|
  {
    i < n && WritesObject(states[i], events[i], h) && forall m :: i < m < n ==> !DeletesObject(states[m], events[m], h)
  }

  lemma WrittenLastStep(states: seq<State>, events: seq<Event>, h: Hash, n: nat)
    requires IsRun(states, events) && 0 < n <= |events|
    ensures WrittenLast(states, events, h, n) <==>
            || WritesObject(states[n - 1], events[n - 1], h)
            || (WrittenLast(states, events, h, n - 1) && !DeletesObject(states[n - 1], events[n - 1], h))
  {
    if WritesObject(states[n - 1], events[n - 1], h) {
      assert WrittenAt(states, events, h, n - 1, n);
    } else if WrittenLast(states, events, h, n) {
      var i: nat :| WrittenAt(states, events, h, i, n);
      assert WrittenAt(states, events, h, i, n - 1);
    } else if WrittenLast(states, events, h, n - 1) && !DeletesObject(states[n - 1], events[n - 1], h) {
      var i: nat :| WrittenAt(states, events, h, i, n - 1);
      assert WrittenAt(states, events, h, i, n);
    }
  }

  /** Over every run, the object of a hash is there exactly if the last statement to write or delete it was a write. */
  lemma {:induction false} ObjectsByOrder(states: seq<State>, events: seq<Event>, h: Hash, n: nat)
    requires IsRun(states, events) && n <= |events|
    ensures h in states[n].store.objects <==> WrittenLast(states, events, h, n)
  {
    if n > 0 {
      ObjectsByOrder(states, events, h, n - 1);
      WrittenLastStep(states, events, h, n);
      var s, e := states[n - 1], events[n - 1];
      OthersUntouched(s, e);
      if e.Advance? && !StepsOn(s, e, h) {
        OtherHashesUntouched(s, e, h);
      }
    }
  }

  predicate Associates(s: State, e: Event, a: Association)
    requires Enabled(s, e)
  {
    && e.Advance?
    && var t := s.tasks[e.id];
       (t.PutTask? && t.put.PutIndexing? && t.a == a) || (Inserting(t, a.hash) && t.destination == a)
  }

  predicate Unlinks(s: State, e: Event, a: Association)
    requires Enabled(s, e)
  {
    e.Advance? && s.tasks[e.id].ObliterateTask? && s.tasks[e.id].phase.Unlinking? && s.tasks[e.id].a == a
  }

  /** Some put or copy associates `a` before `n`, and no obliterate unlinks it after that. */
  ghost predicate AssociatedLast(states: seq<State>, events: seq<Event>, a: Association, n: nat)
    requires IsRun(states, events) && n <= |events|
  {
    exists i: nat :: AssociatedAt(states, events, a, i, n)
  }

  ghost predicate AssociatedAt(states: seq<State>, events: seq<Event>, a: Association, i: nat, n: nat)
    requires IsRun(states, events) && n <= |events|
  {
    i < n && Associates(states[i], events[i], a) && forall m :: i < m < n ==> !Unlinks(states[m], events[m], a)
  }

  lemma AssociatedLastStep(states: seq<State>, events: seq<Event>, a: Association, n: nat)
    requires IsRun(states, events) && 0 < n <= |events|
    ensures AssociatedLast(states, events, a, n) <==>
            || Associates(states[n - 1], events[n - 1], a)
            || (AssociatedLast(states, events, a, n - 1) && !Unlinks(states[n - 1], events[n - 1], a))
  {
    if Associates(states[n - 1], events[n - 1], a) {
      assert AssociatedAt(states, events, a, n - 1, n);
    } else if AssociatedLast(states, events, a, n) {
      var i: nat :| AssociatedAt(states, events, a, i, n);
      assert AssociatedAt(states, events, a, i, n - 1);
    } else if AssociatedLast(states, events, a, n - 1) && !Unlinks(states[n - 1], events[n - 1], a) {
      var i: nat :| AssociatedAt(states, events, a, i, n - 1);
      assert AssociatedAt(states, events, a, i, n);
    }
  }

  lemma {:induction false} AssociationsByOrder(states: seq<State>, events: seq<Event>, a: Association, n: nat)
    requires IsRun(states, events) && n <= |events|
    ensures a in states[n].store.associations <==> AssociatedLast(states, events, a, n)
  {
    if n > 0 {
      AssociationsByOrder(states, events, a, n - 1);
      AssociatedLastStep(states, events, a, n);
      OthersUntouched(states[n - 1], events[n - 1]);
    }
  }

  /** So whether an association is without its object can be told from the order of five kinds of statements: those that
      write and delete the object, and those that add and drop the association. */
  lemma DanglesByOrder(states: seq<State>, events: seq<Event>, h: Hash, n: nat)
    requires IsRun(states, events) && n <= |events|
    ensures Dangles(states[n].store, h) <==>
            && !WrittenLast(states, events, h, n)
            && exists a: Association :: a.hash == h && AssociatedLast(states, events, a, n)
  {
    ObjectsByOrder(states, events, h, n);
    forall a: Association
      ensures a in states[n].store.associations <==> AssociatedLast(states, events, a, n)
    {
      AssociationsByOrder(states, events, a, n);
    }
  }

  /** A put about to index has written its object. */
  lemma {:induction false} IndexingHasWritten(states: seq<State>, events: seq<Event>, id: TaskId, n: nat)
    returns (w: nat)
    requires IsRun(states, events) && n <= |events| && id < |states[n].tasks|
    requires states[n].tasks[id].PutTask? && states[n].tasks[id].put.PutIndexing?
    ensures w < n && events[w] == Advance(id) && WritesObject(states[w], events[w], states[n].tasks[id].a.hash)
  {
    assert n > 0;
    OthersUntouched(states[n - 1], events[n - 1]);
    if events[n - 1] == Advance(id) && states[n - 1].tasks[id].put.PutWriting? {
      w := n - 1;
    } else {
      w := IndexingHasWritten(states, events, id, n - 1);
    }
  }

  /** Event `d`, after `w`, deletes the object of `h`, and nothing writes it again before `n`. */
  ghost predicate DeletedBetween(states: seq<State>, events: seq<Event>, h: Hash, w: nat, d: nat, n: nat)
    requires IsRun(states, events) && n <= |events|
  {
    w < d < n && DeletesObject(states[d], events[d], h) && forall m :: d < m < n ==>
      !WritesObject(states[m], events[m], h)
  }

  /** After its write, an object is gone exactly if it has been deleted and not written again. */
  lemma {:induction false} GoneSinceWrite(states: seq<State>, events: seq<Event>, h: Hash, w: nat, n: nat)
    requires IsRun(states, events) && w < n <= |events| && WritesObject(states[w], events[w], h)
    ensures h !in states[n].store.objects <==> exists d: nat :: DeletedBetween(states, events, h, w, d, n)
  {
    var s, e := states[n - 1], events[n - 1];
    OthersUntouched(s, e);
    if e.Advance? && !StepsOn(s, e, h) {
      OtherHashesUntouched(s, e, h);
    }
    if n > w + 1 {
      GoneSinceWrite(states, events, h, w, n - 1);
      if DeletesObject(s, e, h) {
        assert DeletedBetween(states, events, h, w, n - 1, n);
      } else if h !in states[n - 1].store.objects && !WritesObject(s, e, h) {
        var d: nat :| DeletedBetween(states, events, h, w, d, n - 1);
        assert DeletedBetween(states, events, h, w, d, n);
      } else if d: nat :| DeletedBetween(states, events, h, w, d, n) {
        assert DeletedBetween(states, events, h, w, d, n - 1);
      }
    }
  }

  /** A put of a live fragment ends with its payload lost exactly if an obliterate deleted the object after the put had
      written it and nothing wrote it again before the put's index was committed. */
  lemma PutLosesByOrder(states: seq<State>, events: seq<Event>, id: TaskId, w: nat, n: nat)
    requires IsRun(states, events) && w < n < |events| && events[n] == Advance(id)
    requires states[n].tasks[id].PutTask? && states[n].tasks[id].put.PutIndexing? && Live(states[n].tasks[id].f)
    requires events[w] == Advance(id) && WritesObject(states[w], events[w], states[n].tasks[id].a.hash)
    ensures
      var h := states[n].tasks[id].a.hash;
      Lost(states[n + 1].store, h) <==> exists d: nat :: DeletedBetween(states, events, h, w, d, n)
  {
    GoneSinceWrite(states, events, states[n].tasks[id].a.hash, w, n);
  }

  // ---------------------------------------------------------------------------
  // Runs without any crash
  // ---------------------------------------------------------------------------

  ghost predicate Crashless(states: seq<State>, events: seq<Event>) {
    IsRun(states, events) && forall i :: 0 <= i < |events| ==> !events[i].Abort?
  }

  lemma Begin(forceWrite: bool) returns (states: seq<State>, events: seq<Event>)
    ensures Crashless(states, events) && Last(states) == State(Snapshot({}, map[], map[], forceWrite), [])
  {
    states, events := [State(Snapshot({}, map[], map[], forceWrite), [])], [];
  }

  lemma Plays(states: seq<State>, events: seq<Event>, e: Event) returns (states': seq<State>, events': seq<Event>)
    requires Crashless(states, events) && Enabled(Last(states), e) && !e.Abort?
    ensures Crashless(states', events') && Last(states') == After(Last(states), e)
  {
    states', events' := Grow(states, events, e);
    forall i | 0 <= i < |events'|
      ensures !events'[i].Abort?
    {
      assert i < |events| ==> events'[i] == events[i];
    }
  }

  /** The next statement of a task. */
  lemma TaskPlays(states: seq<State>, events: seq<Event>, id: TaskId, t: Task)
    returns (states': seq<State>, events': seq<Event>)
    requires Crashless(states, events) && id < |Last(states).tasks| && Last(states).tasks[id] == t && CanAdvance(t)
    ensures Crashless(states', events')
    ensures Last(states') == State(OwnStep(Last(states).store, t).0,
        Last(states).tasks[id := OwnStep(Last(states).store, t).1])
  {
    states', events' := Plays(states, events, Advance(id));
  }

  /** A put of a new address, run to its end. */
  lemma PutPlays(states: seq<State>, events: seq<Event>, a: Association, f: Fragment, b: Bytes)
    returns (states': seq<State>, events': seq<Event>)
    requires Crashless(states, events) && Puttable(f, b) && a !in Last(states).store.associations
    ensures Crashless(states', events')
    ensures
      var s := Last(states);
      Last(states') == State(Written(s.store, a, f, b), s.tasks + [PutTask(a, f, Some(b), PutDone(true))])
  {
    var id, t := |Last(states).tasks|, PutTask(a, f, Some(b), PutResolving);
    states', events' := Plays(states, events, Start(t));
    states', events' := TaskPlays(states', events', id, t);
    states', events' := TaskPlays(states', events', id, t.(put := PutWriting));
    states', events' := TaskPlays(states', events', id, t.(put := PutIndexing));
    assert Last(states').tasks == Last(states).tasks + [t.(put := PutDone(true))];
  }

  /** An obliterate of a plain live row, up to the point where it holds it. */
  lemma ObliterateUntilLocked(states: seq<State>, events: seq<Event>, a: Association)
    returns (states': seq<State>, events': seq<Event>)
    requires Crashless(states, events) && LiveAt(Last(states).store, a.hash)
    requires
      var f := Last(states).store.metadata[a.hash];
      SizeOk(f) && !f.flags.fragmented
    ensures Crashless(states', events')
    ensures
      var s := Last(states);
      && Last(states').tasks == s.tasks + [ObliterateTask(a, Unlinking(s.store.metadata[a.hash]))]
      && Last(states').store == Mark(s.store, a.hash)
  {
    var s, id := Last(states), |Last(states).tasks|;
    var f := s.store.metadata[a.hash];
    states', events' := Plays(states, events, Start(ObliterateTask(a, Loading)));
    states', events' := TaskPlays(states', events', id, ObliterateTask(a, Loading));
    states', events' := TaskPlays(states', events', id, ObliterateTask(a, Locking(f)));
    assert Last(states').tasks == s.tasks + [ObliterateTask(a, Unlinking(f))];
  }

  /** Then, for the only association of its hash, up to the point where it has found none left. */
  lemma ObliterateUntilCondemned(states: seq<State>, events: seq<Event>, a: Association)
    returns (states': seq<State>, events': seq<Event>)
    requires Crashless(states, events) && LiveAt(Last(states).store, a.hash) && Last(states).store.associations == {a}
    requires
      var f := Last(states).store.metadata[a.hash];
      SizeOk(f) && !f.flags.fragmented
    ensures Crashless(states', events')
    ensures
      var s := Last(states);
      && Last(states').tasks == s.tasks + [ObliterateTask(a, Deleting(s.store.metadata[a.hash]))]
      && Last(states').store == Mark(s.store, a.hash).(associations := {})
  {
    var s, id := Last(states), |Last(states).tasks|;
    var f := s.store.metadata[a.hash];
    states', events' := ObliterateUntilLocked(states, events, a);
    states', events' := TaskPlays(states', events', id, ObliterateTask(a, Unlinking(f)));
    states', events' := TaskPlays(states', events', id, ObliterateTask(a, Counting(f)));
    assert Last(states').tasks == s.tasks + [ObliterateTask(a, Deleting(f))];
  }

  /** A put of a hash whose row is marked, and whose object is deleted between the put's two writes. */
  lemma PutUnderTheDelete(states: seq<State>, events: seq<Event>, a: Association, f: Fragment, b: Bytes)
    returns (states': seq<State>, events': seq<Event>)
    requires Crashless(states, events) && Puttable(f, b) && |Last(states).tasks| == 2
    requires Last(states).tasks[1] == ObliterateTask(a, Deleting(f)) && a !in Last(states).store.associations
    ensures Crashless(states', events')
    ensures
      var s := Last(states');
      && a in s.store.associations && Lost(s.store, a.hash)
      && s.tasks != [] && Last(s.tasks) == PutTask(a, f, Some(b), PutDone(true))
  {
    var t := PutTask(a, f, Some(b), PutResolving);
    states', events' := Plays(states, events, Start(t));
    states', events' := TaskPlays(states', events', 2, t);
    states', events' := TaskPlays(states', events', 2, t.(put := PutWriting));
    states', events' := TaskPlays(states', events', 1, ObliterateTask(a, Deleting(f)));
    states', events' := TaskPlays(states', events', 2, t.(put := PutIndexing));
  }

  /** Without PutsApart, a put that reports success can end with its payload gone, though nothing crashes: it starts
      once the obliterator has counted no associations, and its object is deleted between its two writes. */
  lemma PutCanLoseItsPayload(a: Association, f: Fragment, b: Bytes, forceWrite: bool)
    returns (states: seq<State>, events: seq<Event>)
    requires Puttable(f, b) && !f.flags.fragmented
    ensures Crashless(states, events)
    ensures
      var s := Last(states);
      && a in s.store.associations && Lost(s.store, a.hash)
      && s.tasks != [] && Last(s.tasks) == PutTask(a, f, Some(b), PutDone(true))
  {
    states, events := Begin(forceWrite);
    states, events := PutPlays(states, events, a, f, b);
    states, events := ObliterateUntilCondemned(states, events, a);
    states, events := PutUnderTheDelete(states, events, a, f, b);
  }

  /** A copy past its check inserts after the count, and the obliterator goes on. */
  lemma CopyAfterTheCount(states: seq<State>, events: seq<Event>, a: Association, copy: Task, f: Fragment)
    returns (states': seq<State>, events': seq<Event>)
    requires Crashless(states, events) && |Last(states).tasks| == 3 && copy.CopyTask? && copy.destination.hash == a.hash
    requires Last(states).tasks[1] == copy.(copy := CopyInserting)
    requires Last(states).tasks[2] == ObliterateTask(a, Deleting(f))
    requires a.hash in Last(states).store.metadata && Last(states).store.metadata[a.hash] == Marked(f)
    ensures Crashless(states', events')
    ensures
      var s := Last(states');
      && copy.destination in s.store.associations && Dangles(s.store, a.hash)
      && a.hash in s.store.metadata && s.store.metadata[a.hash] == TOMBSTONE
      && |s.tasks| == 3 && s.tasks[1] == copy.(copy := CopyDone(true))
  {
    states', events' := TaskPlays(states, events, 1, copy.(copy := CopyInserting));
    states', events' := TaskPlays(states', events', 2, ObliterateTask(a, Deleting(f)));
    states', events' := TaskPlays(states', events', 2, ObliterateTask(a, Finalizing(f)));
  }

  /** Without CopiesApart, a copy that reports success can associate a hash whose payload is then deleted, though
      nothing crashes. */
  lemma CopyCanDangle(a: Association, destination: Association, f: Fragment, b: Bytes, forceWrite: bool)
    returns (states: seq<State>, events: seq<Event>)
    requires Puttable(f, b) && !f.flags.fragmented && destination.hash == a.hash && destination != a
    ensures Crashless(states, events)
    ensures
      var s := Last(states);
      && destination in s.store.associations && Dangles(s.store, a.hash)
      && a.hash in s.store.metadata && s.store.metadata[a.hash] == TOMBSTONE
      && |s.tasks| == 3 && s.tasks[1] == CopyTask(a, destination, CopyDone(true))
  {
    var copy := CopyTask(a, destination, CopyChecking);
    states, events := Begin(forceWrite);
    states, events := PutPlays(states, events, a, f, b);
    states, events := Plays(states, events, Start(copy));
    states, events := TaskPlays(states, events, 1, copy);
    states, events := ObliterateUntilCondemned(states, events, a);
    states, events := CopyAfterTheCount(states, events, a, copy, f);
  }

  // ---------------------------------------------------------------------------
  // What the success of a put means
  // ---------------------------------------------------------------------------

  /** A put has succeeded, in any run, exactly because it wrote its row and association, or found a row of its content
      size or an obliterated one when it compared, and then wrote nothing. */
  lemma {:induction false} PutSuccessMeans(states: seq<State>, events: seq<Event>, n: nat, id: TaskId) returns (i: nat)
    requires IsRun(states, events) && n < |states| && id < |states[n].tasks|
    requires states[n].tasks[id].PutTask? && states[n].tasks[id].put == PutDone(true)
    ensures i < n && events[i] == Advance(id) && id < |states[i].tasks| && states[i].tasks[id].PutTask?
    ensures
      var s, u, t := states[i].store, states[i + 1].store, states[i].tasks[id];
      && t == states[n].tasks[id].(put := t.put)
      && (|| (t.put.PutIndexing? && t.a in u.associations && t.a.hash in u.metadata && u.metadata[t.a.hash] == t.f)
          || (t.put.PutComparing? && u == s && t.a.hash in s.metadata && !s.metadata[t.a.hash].flags.obliterating
              && (s.metadata[t.a.hash].flags.obliterated || s.metadata[t.a.hash].sizeContent == t.f.sizeContent)))
  {
    assert n > 0;
    var s, t := states[n - 1], states[n];
    if id < |s.tasks| && s.tasks[id] == t.tasks[id] {
      i := PutSuccessMeans(states, events, n - 1, id);
    } else {
      i := n - 1;
    }
  }

  /** The rest of an obliterate that has condemned its row. */
  lemma CondemnedEnds(states: seq<State>, events: seq<Event>, id: TaskId, a: Association, f: Fragment)
    returns (states': seq<State>, events': seq<Event>)
    requires Crashless(states, events) && id < |Last(states).tasks|
    requires Last(states).tasks[id] == ObliterateTask(a, Deleting(f))
    requires a.hash in Last(states).store.metadata && Last(states).store.metadata[a.hash] == Marked(f)
    ensures Crashless(states', events')
    ensures
      var s := Last(states);
      && Last(states').tasks == s.tasks[id := ObliterateTask(a, ObliterateDone(true))]
      && Last(states').store == s.store.(objects := s.store.objects - {a.hash},
                                         metadata := s.store.metadata[a.hash := TOMBSTONE])
  {
    states', events' := TaskPlays(states, events, id, ObliterateTask(a, Deleting(f)));
    states', events' := TaskPlays(states', events', id, ObliterateTask(a, Finalizing(f)));
  }

  /** So a put can succeed on an address that has no payload and no association any more, whatever content size it
      brings, though nothing crashes: it finds the row live, and obliterated when it compares. Before that obliterate
      the same put is a collision if its content size differs, and after it, it writes. */
  lemma PutCanSettleForTombstone(a: Association, f: Fragment, b: Bytes, g: Fragment, c: Bytes)
    returns (states: seq<State>, events: seq<Event>)
    requires Puttable(f, b) && !f.flags.fragmented && Puttable(g, c)
    ensures Crashless(states, events)
    ensures
      var s := Last(states);
      && s.store == Snapshot({}, map[a.hash := TOMBSTONE], map[], false)
      && s.tasks != [] && s.tasks[1..] ==
        [PutTask(a, g, Some(c), PutDone(true)), ObliterateTask(a, ObliterateDone(true))]
    ensures g.sizeContent != f.sizeContent ==>
              PutResult(Written(Snapshot({}, map[], map[], false), a, f, b), a, g, Some(c)) == Err(Internal)
    ensures PutResult(Last(states).store, a, g, Some(c)) == Ok(())
              && AfterPut(Last(states).store, a, g, Some(c)) == Written(Last(states).store, a, g, c)
  {
    var t := PutTask(a, g, Some(c), PutResolving);
    states, events := Begin(false);
    states, events := PutPlays(states, events, a, f, b);
    states, events := Plays(states, events, Start(t));
    states, events := TaskPlays(states, events, 1, t);
    states, events := TaskPlays(states, events, 1, t.(put := PutCheckingRow));
    states, events := ObliterateUntilCondemned(states, events, a);
    states, events := CondemnedEnds(states, events, 2, a, f);
    states, events := TaskPlays(states, events, 1, t.(put := PutComparing));
  }

  // ---------------------------------------------------------------------------
  // Two sub-fragment tasks on one hash
  // ---------------------------------------------------------------------------

  /** A fragmented row whose object lists the same plain live hash twice, each associated once. */
  predicate ListsTwice(s: Snapshot, a: Association, k: Hash) {
    && Expands(s, a.hash) && References(s, a.hash) == [k, k] && SizeOk(s.metadata[a.hash])
    && k != a.hash && LiveAt(s, k) && SizeOk(s.metadata[k]) && !s.metadata[k].flags.fragmented
    && s.associations == {a, a.(hash := k)}
  }

  /** Two puts get there, whenever some payload lists a hash twice. */
  lemma ListsTwiceIsReachable(a: Association, f: Fragment, b: Bytes, k: Hash, g: Fragment, c: Bytes, forceWrite: bool)
    returns (states: seq<State>, events: seq<Event>)
    requires Puttable(f, b) && f.flags.fragmented && LIBRARY.references(b) == [k, k]
    requires Puttable(g, c) && !g.flags.fragmented && k != a.hash
    ensures Crashless(states, events) && ListsTwice(Last(states).store, a, k)
  {
    states, events := Begin(forceWrite);
    states, events := PutPlays(states, events, a.(hash := k), g, c);
    states, events := PutPlays(states, events, a, f, b);
  }

  /** Run one at a time, obliterating such a row succeeds. */
  lemma OneAtATimeSucceeds(s: Snapshot, a: Association, k: Hash)
    requires ListsTwice(s, a, k)
    ensures WellStored(s, iset{a.hash})
  {
    ReachLeast(s, iset{a.hash}, iset{a.hash, k});
  }

  /** And its two references are two routes that meet. */
  lemma ListedTwiceMeets(s: Snapshot, a: Association, k: Hash)
    requires ListsTwice(s, a, k)
    ensures !Treelike(s, a.hash)
  {
    var p, q := Route([a.hash, k], [0]), Route([a.hash, k], [1]);
    assert Turns(s, a.hash, 0, k) && Turns(s, a.hash, 1, k);
    assert Meet(s, a.hash, p, q);
  }

  lemma ParentWaits(states: seq<State>, events: seq<Event>, id: TaskId, a: Association, k: Hash)
    returns (states': seq<State>, events': seq<Event>)
    requires IsRun(states, events) && ListsTwice(Last(states).store, a, k)
    requires |Last(states).tasks| == id + 1 && Last(states).tasks[id] == ObliterateTask(a, Loading)
    ensures Follows(states, events, states', events', id)
    ensures
      var s := Last(states);
      && Last(states').store == Mark(s.store, a.hash)
      && Last(states').tasks == s.tasks[id := ObliterateTask(a, Waiting(s.store.metadata[a.hash], [k, k], []))]
  {
    var f := Last(states).store.metadata[a.hash];
    states', events' := ObliterateSteps(states, events, id, ObliterateTask(a, Loading));
    states', events' := ObliterateGoesOn(states, events, states', events', id, ObliterateTask(a, Locking(f)));
    states', events' := ObliterateGoesOn(states, events, states', events', id, ObliterateTask(a, Listing(f)));
  }

  /** Both sub-fragment tasks have read the row of `k` before either locks it. */
  lemma BothLoad(states: seq<State>, events: seq<Event>, a: Association, k: Hash, f: Fragment, id: TaskId)
    returns (states': seq<State>, events': seq<Event>)
    requires IsRun(states, events) && |Last(states).tasks| == id + 1
    requires Last(states).tasks[id] == ObliterateTask(a, Waiting(f, [k, k], []))
    requires LiveAt(Last(states).store, k) && SizeOk(Last(states).store.metadata[k])
    ensures Follows(states, events, states', events', id) && Last(states').store == Last(states).store
    ensures
      var t, child := Last(states').tasks, ObliterateTask(a.(hash := k), Locking(Last(states).store.metadata[k]));
      |t| == id + 3 && t[id] == ObliterateTask(a, Waiting(f, [], [id + 1, id + 2])) && t[id + 1] == child &&
        t[id + 2] == child
  {
    var child := ObliterateTask(a.(hash := k), Loading);
    states', events' := BothSpawn(states, events, a, k, f, id);
    var states'', events'' := ObliterateSteps(states', events', id + 1, child);
    FollowsOn(states, events, states', events', states'', events'', id, id + 1);
    states', events' := ObliterateSteps(states'', events'', id + 2, child);
    FollowsOn(states, events, states'', events'', states', events', id, id + 2);
  }

  lemma BothSpawn(states: seq<State>, events: seq<Event>, a: Association, k: Hash, f: Fragment, id: TaskId)
    returns (states': seq<State>, events': seq<Event>)
    requires IsRun(states, events) && |Last(states).tasks| == id + 1
    requires Last(states).tasks[id] == ObliterateTask(a, Waiting(f, [k, k], []))
    ensures Follows(states, events, states', events', id) && Last(states').store == Last(states).store
    ensures
      var t, child := Last(states').tasks, ObliterateTask(a.(hash := k), Loading);
      |t| == id + 3 && t[id] == ObliterateTask(a, Waiting(f, [], [id + 1, id + 2])) && t[id + 1] == child &&
        t[id + 2] == child
  {
    assert [k, k][1..] == [k] && [k][1..] == [] && [] + [id + 1] == [id + 1] && [id + 1] + [id + 2] == [id + 1, id + 2];
    var first, firstEvents := GrowTree(states, events, Spawn(id), id);
    assert Last(first).tasks[id] == ObliterateTask(a, Waiting(f, [k], [id + 1]));
    states', events' := GrowTree(first, firstEvents, Spawn(id), id);
    FollowsOn(states, events, first, firstEvents, states', events', id, id);
  }

  /** The second sub-fragment task loses the race for the lock; the first goes on to its end. */
  lemma SecondFails(states: seq<State>, events: seq<Event>, child: Association, g: Fragment, id: TaskId)
    returns (states': seq<State>, events': seq<Event>)
    requires IsRun(states, events) && |Last(states).tasks| == id + 3
    requires Last(states).tasks[id + 1] == ObliterateTask(child, Locking(g))
    requires Last(states).tasks[id + 2] == ObliterateTask(child, Locking(g))
    requires Live(g) && !g.flags.fragmented && child.hash in Last(states).store.metadata
    requires Last(states).store.metadata[child.hash] == g
    ensures IsRun(states', events') && states <= states' && events <= events'
    ensures forall i :: |events| <= i < |events'| ==> OfTree(events'[i], id + 1, id + 1)
    ensures
      var s, t := Last(states), Last(states');
      && t.store == Finish(Mark(s.store, child.hash), child.hash, g, ScopeOf(child))
      && |t.tasks| == id + 3 && t.tasks[id] == s.tasks[id]
      && t.tasks[id + 1] == ObliterateTask(child, ObliterateDone(true)) &&
        t.tasks[id + 2] == ObliterateTask(child, ObliterateDone(false))
  {
    var first, firstEvents := ObliterateSteps(states, events, id + 1, ObliterateTask(child, Locking(g)));
    var second, secondEvents := ObliterateSteps(first, firstEvents, id + 2, ObliterateTask(child, Locking(g)));
    states', events' := UnlinkRunsAlone(second, secondEvents, id + 1, g);
  }

  lemma StartToBothLoaded(states: seq<State>, events: seq<Event>, a: Association, k: Hash)
    returns (from: seq<State>, fromEvents: seq<Event>, both: seq<State>, bothEvents: seq<Event>)
    requires IsRun(states, events) && ListsTwice(Last(states).store, a, k)
    ensures IsRun(from, fromEvents) && states <= from && fromEvents == events + [Start(ObliterateTask(a, Loading))]
    ensures |Last(from).tasks| == |Last(states).tasks| + 1
    ensures Follows(from, fromEvents, both, bothEvents, |Last(states).tasks|)
    ensures Last(both).store == Mark(Last(states).store, a.hash)
    ensures
      var t, id := Last(both).tasks, |Last(states).tasks|;
      var child := ObliterateTask(a.(hash := k), Locking(Last(states).store.metadata[k]));
      && |t| == id + 3 && t[id] == ObliterateTask(a, Waiting(Last(states).store.metadata[a.hash], [], [id + 1, id + 2]))
      && t[id + 1] == child && t[id + 2] == child
  {
    var s, id := Last(states), |Last(states).tasks|;
    from, fromEvents := Grow(states, events, Start(ObliterateTask(a, Loading)));
    assert fromEvents == events + [Start(ObliterateTask(a, Loading))];
    var waits, waitsEvents := ParentWaits(from, fromEvents, id, a, k);
    both, bothEvents := BothLoad(waits, waitsEvents, a, k, s.store.metadata[a.hash], id);
    FollowsOn(from, fromEvents, waits, waitsEvents, both, bothEvents, id, id);
  }

  lemma FinishElsewhere(s: Snapshot, k: Hash, g: Fragment, scope: Scope, a: Association)
    requires k in s.metadata && k != a.hash && a in s.associations && a.hash in s.metadata
    ensures
      var t := Finish(s, k, g, scope);
      a in t.associations && a.hash in t.metadata && t.metadata[a.hash] == s.metadata[a.hash]
  {
  }

  /** What the collision has left when both have ended. */
  predicate Collided(s: State, t: State, a: Association)
    requires a.hash in s.store.metadata
  {
    var id, f := |s.tasks|, s.store.metadata[a.hash];
    && |t.tasks| == id + 3 && t.tasks[id] == ObliterateTask(a, Waiting(f, [], [id + 1, id + 2]))
    && t.tasks[id + 1].ObliterateTask? && t.tasks[id + 1].phase == ObliterateDone(true)
    && t.tasks[id + 2].ObliterateTask? && t.tasks[id + 2].phase == ObliterateDone(false)
    && a in t.store.associations && a.hash in t.store.metadata && t.store.metadata[a.hash] == Marked(f)
  }

  lemma StartToCollided(states: seq<State>, events: seq<Event>, a: Association, k: Hash)
    returns (from: seq<State>, fromEvents: seq<Event>, states': seq<State>, events': seq<Event>)
    requires IsRun(states, events) && ListsTwice(Last(states).store, a, k)
    ensures IsRun(from, fromEvents) && states <= from && fromEvents == events + [Start(ObliterateTask(a, Loading))]
    ensures |Last(from).tasks| == |Last(states).tasks| + 1
    ensures Follows(from, fromEvents, states', events', |Last(states).tasks|)
    ensures Collided(Last(states), Last(states'), a)
  {
    var s, id := Last(states), |Last(states).tasks|;
    var g, child := s.store.metadata[k], a.(hash := k);
    var both, bothEvents;
    from, fromEvents, both, bothEvents := StartToBothLoaded(states, events, a, k);
    states', events' := SecondFails(both, bothEvents, child, g, id);
    forall i | |fromEvents| <= i < |events'|
      ensures OfTree(events'[i], id, id + 1)
    {
      assert i < |bothEvents| ==> events'[i] == bothEvents[i];
    }
    FinishElsewhere(Mark(Last(both).store, k), k, g, ScopeOf(child), a);
  }

  lemma StartThenTree(states: seq<State>, events: seq<Event>, from: seq<State>, fromEvents: seq<Event>,
                      states': seq<State>, events': seq<Event>, a: Association)
    requires IsRun(states, events) && IsRun(from, fromEvents) && states <= from
    requires fromEvents == events + [Start(ObliterateTask(a, Loading))]
    requires |Last(from).tasks| == |Last(states).tasks| + 1
    requires Follows(from, fromEvents, states', events', |Last(states).tasks|)
    ensures ObliteratesFrom(states, events, a, states', events')
  {
    assert events'[|events|] == fromEvents[|events|] && states'[|events|] == states[|events|];
  }

  /** With its sub-fragment tasks side by side, obliterating a row that lists one hash twice can fail with nothing else
      going on: it leaves its own row marked and its association in place, so that the address can no longer be read
      and obliterating it again does nothing, although one at a time it succeeds. */
  lemma DuplicateReferencesCollide(states: seq<State>, events: seq<Event>, a: Association, k: Hash)
    returns (states': seq<State>, events': seq<Event>)
    requires IsRun(states, events) && ListsTwice(Last(states).store, a, k)
    ensures WellStored(Last(states).store, iset{a.hash})
    ensures ObliteratesFrom(states, events, a, states', events') && RootDone(states', |events|, |events'|, false)
    ensures
      var s, t, id := Last(states), Last(states'), |Last(states).tasks|;
      && |t.tasks| == id + 3 && (forall j :: id <= j < id + 3 ==> Finished(t.tasks[j]))
      && a in t.store.associations && a.hash in t.store.metadata
      && t.store.metadata[a.hash] == Marked(s.store.metadata[a.hash])
  {
    var id, f := |Last(states).tasks|, Last(states).store.metadata[a.hash];
    OneAtATimeSucceeds(Last(states).store, a, k);
    var from, fromEvents, one, oneEvents := StartToCollided(states, events, a, k);
    assert id + 2 in [id + 1, id + 2];
    states', events' := ParentJoins(one, oneEvents, id, a, f, [id + 1, id + 2], false);
    FollowsOn(from, fromEvents, one, oneEvents, states', events', id, id);
    StartThenTree(states, events, from, fromEvents, states', events', a);
  }
}
