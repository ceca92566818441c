/** What every interleaving of the immutable store's operations keeps, crashes included. Each guarantee is about one
    hash and asks for nothing about the others. */
module ImmutableSafety {
  import opened ByteStrings
  import opened Fragments
  import opened Snapshots
  import opened StoreLaws
  import opened ImmutableProtocol

  // ---------------------------------------------------------------------------
  // Content addressing: a hash determines its fragment and bytes
  // ---------------------------------------------------------------------------

  /** All puts of `h` are of the same fragment and bytes. */
  ghost predicate Determined(s: State, h: Hash, f: Fragment, b: Bytes) {
    forall i :: 0 <= i < |s.tasks| && s.tasks[i].PutTask? && s.tasks[i].a.hash == h ==>
      s.tasks[i].f == f && (s.tasks[i].payload.Some? ==> s.tasks[i].payload.value == b)
  }

  predicate LoadedRight(t: Task, h: Hash, f: Fragment, b: Bytes) {
    match t
    case ObliterateTask(a, phase) => a.hash == h && !phase.Loading? && !phase.ObliterateDone? ==> phase.original == f
    case GetTask(a, exact, row, found) =>
      a.hash == h ==>
        && (row.Some? && row.value.Ok? ==> row.value.value == f)
        && (found.Some? && found.value.Some? ==> found.value.value == b)
    case PutTask(a, g, payload, put) => Writing(t) ==> payload.Some? && |payload.value| == g.sizePayload
    case CopyTask(_, _, _) => true
  }

  predicate StoredRight(s: Snapshot, h: Hash, f: Fragment, b: Bytes) {
    && (h in s.objects ==> s.objects[h] == b)
    && (LiveAt(s, h) ==> s.metadata[h] == f)
  }

  /** The object and live row of `h` are the determined ones, and so is all that tasks remember of them. */
  ghost predicate Right(s: State, h: Hash, f: Fragment, b: Bytes) {
    StoredRight(s.store, h, f, b) && forall i :: 0 <= i < |s.tasks| ==> LoadedRight(s.tasks[i], h, f, b)
  }

  lemma StepStaysRight(s: State, e: Event, h: Hash, f: Fragment, b: Bytes)
    requires Enabled(s, e) && Right(s, h, f, b) && Determined(s, h, f, b)
    ensures Right(After(s, e), h, f, b)
  {
    var t := After(s, e);
    OthersUntouched(s, e);
    forall i | 0 <= i < |t.tasks|
      ensures LoadedRight(t.tasks[i], h, f, b)
    {
      assert i < |s.tasks| ==> LoadedRight(s.tasks[i], h, f, b);
    }
    if e.Advance? {
      StoreStaysRight(s, e.id, h, f, b);
    }
  }

  lemma StoreStaysRight(s: State, id: TaskId, h: Hash, f: Fragment, b: Bytes)
    requires Enabled(s, Advance(id)) && Right(s, h, f, b) && Determined(s, h, f, b)
    ensures StoredRight(After(s, Advance(id)).store, h, f, b)
  {
    var actor := s.tasks[id];
    assert LoadedRight(actor, h, f, b);
    if actor.CopyTask? || actor.a.hash != h {
      OtherHashesUntouched(s, Advance(id), h);
    }
  }

  lemma {:induction false} RunsStayRight(states: seq<State>, events: seq<Event>, h: Hash, f: Fragment, b: Bytes, n: nat)
    requires IsRun(states, events) && n < |states|
    requires forall i :: 0 <= i < n ==> Determined(states[i], h, f, b)
    ensures Right(states[n], h, f, b)
  {
    if n > 0 {
      RunsStayRight(states, events, h, f, b, n - 1);
      StepStaysRight(states[n - 1], events[n - 1], h, f, b);
    }
  }

  /** Whatever overlaps and crashes, a get that returns something returns the fragment and bytes put under its hash. */
  lemma ReadsAreRight(states: seq<State>, events: seq<Event>, f: Fragment, b: Bytes, id: TaskId, n: nat)
    requires IsRun(states, events) && n < |states| && id < |states[n].tasks|
    requires states[n].tasks[id].GetTask? && Finished(states[n].tasks[id])
    requires GetResult(states[n].store, states[n].tasks[id]).Ok?
    requires forall i :: 0 <= i < n ==> Determined(states[i], states[n].tasks[id].a.hash, f, b)
    requires |b| == f.sizePayload
    ensures GetResult(states[n].store, states[n].tasks[id]).value == (f, b)
  {
    var t := states[n].tasks[id];
    RunsStayRight(states, events, t.a.hash, f, b, n);
    assert LoadedRight(t, t.a.hash, f, b);
  }

  // ---------------------------------------------------------------------------
  // Live rows have their payload
  // ---------------------------------------------------------------------------

  predicate PayloadPresent(s: Snapshot, h: Hash, f: Fragment, b: Bytes) {
    h in s.objects && |b| == f.sizePayload
  }

  /** A task about to make the row of `h` live, or still entitled to give it back, has the payload to go with it. */
  predicate PayloadSecured(s: Snapshot, t: Task, h: Hash, f: Fragment, b: Bytes) {
    && (t.PutTask? && t.put.PutIndexing? && t.a.hash == h ==> PayloadPresent(s, h, f, b))
    && (HoldingOf(t, h) && !t.phase.Finalizing? ==> PayloadPresent(s, h, f, b))
  }

  ghost predicate Backed(s: State, h: Hash, f: Fragment, b: Bytes) {
    && (LiveAt(s.store, h) ==> PayloadPresent(s.store, h, f, b))
    && (forall i :: 0 <= i < |s.tasks| ==> PayloadSecured(s.store, s.tasks[i], h, f, b))
  }

  ghost predicate BackedPremises(s: State, h: Hash, f: Fragment, b: Bytes) {
    Right(s, h, f, b) && Determined(s, h, f, b) && AllLoadedLive(s) && LockHeld(s, h) && PutsApart(s, h)
  }

  lemma StepStaysBacked(s: State, e: Event, h: Hash, f: Fragment, b: Bytes)
    requires Enabled(s, e) && BackedPremises(s, h, f, b) && Backed(s, h, f, b)
    ensures Backed(After(s, e), h, f, b)
  {
    var t := After(s, e);
    OthersUntouched(s, e);
    LiveRowStaysBacked(s, e, h, f, b);
    forall i | 0 <= i < |t.tasks|
      ensures PayloadSecured(t.store, t.tasks[i], h, f, b)
    {
      TaskStaysSecured(s, e, h, f, b, i);
    }
  }

  lemma LiveRowStaysBacked(s: State, e: Event, h: Hash, f: Fragment, b: Bytes)
    requires Enabled(s, e) && BackedPremises(s, h, f, b) && Backed(s, h, f, b)
    ensures LiveAt(After(s, e).store, h) ==> PayloadPresent(After(s, e).store, h, f, b)
  {
    OthersUntouched(s, e);
    if e.Advance? {
      var actor := s.tasks[e.id];
      assert LoadedRight(actor, h, f, b) && PayloadSecured(s.store, actor, h, f, b);
      if actor.CopyTask? || actor.a.hash != h {
        OtherHashesUntouched(s, e, h);
      }
    }
  }

  lemma TaskStaysSecured(s: State, e: Event, h: Hash, f: Fragment, b: Bytes, i: nat)
    requires Enabled(s, e) && BackedPremises(s, h, f, b) && Backed(s, h, f, b) && i < |After(s, e).tasks|
    ensures PayloadSecured(After(s, e).store, After(s, e).tasks[i], h, f, b)
  {
    OthersUntouched(s, e);
    if i == |s.tasks| || !e.Advance? {
      assert i < |s.tasks| ==> PayloadSecured(s.store, s.tasks[i], h, f, b);
    } else {
      var actor, task := s.tasks[e.id], s.tasks[i];
      assert LoadedRight(actor, h, f, b) && LoadedLive(actor);
      assert PayloadSecured(s.store, actor, h, f, b) && PayloadSecured(s.store, task, h, f, b);
      if actor.CopyTask? || actor.a.hash != h {
        OtherHashesUntouched(s, e, h);
      } else if i != e.id && (HoldingOf(task, h) || WritingOf(task, h)) {
        assert !HoldingOf(actor, h);
      }
    }
  }

  lemma {:induction false} RunsStayBacked(states: seq<State>, events: seq<Event>, h: Hash, f: Fragment, b: Bytes,
                                          n: nat)
    requires IsRun(states, events) && n < |states|
    requires forall i :: 0 <= i < n ==> Determined(states[i], h, f, b) && PutsApart(states[i], h)
    ensures Backed(states[n], h, f, b)
  {
    if n > 0 {
      RunsStayBacked(states, events, h, f, b, n - 1);
      RunsStayRight(states, events, h, f, b, n - 1);
      RunsHoldLocks(states, events, h, n - 1);
      RunsLoadLive(states, events, n - 1);
      StepStaysBacked(states[n - 1], events[n - 1], h, f, b);
    }
  }

  /** In every reachable state, crashes included, a row without an obliteration flag has an object of exactly the size
      it says, if the puts of its hash agree and none of them writes under an obliterator of that hash. */
  lemma IndexAndPayloadAgree(states: seq<State>, events: seq<Event>, h: Hash, f: Fragment, b: Bytes, n: nat)
    requires IsRun(states, events) && n < |states|
    requires forall i :: 0 <= i < n ==> Determined(states[i], h, f, b) && PutsApart(states[i], h)
    ensures
      var s := states[n].store;
      LiveAt(s, h) ==> h in s.objects && |s.objects[h]| == s.metadata[h].sizePayload
  {
    RunsStayBacked(states, events, h, f, b, n);
    RunsStayRight(states, events, h, f, b, n);
  }

  // ---------------------------------------------------------------------------
  // No association without a payload
  // ---------------------------------------------------------------------------

  /** Past its count: the obliterator has found no association of `h` left and deletes the payload. */
  predicate Condemning(t: Task, h: Hash) {
    t.ObliterateTask? && t.a.hash == h && (t.phase.Deleting? || t.phase.Finalizing?)
  }

  /** A copy past its check. */
  predicate Inserting(t: Task, h: Hash) {
    t.CopyTask? && t.destination.hash == h && t.copy.CopyInserting?
  }

  /** No copy is about to associate `h` while an obliterator has condemned it. */
  ghost predicate CopiesApart(s: State, h: Hash) {
    forall i, j :: 0 <= i < |s.tasks| && 0 <= j < |s.tasks| && Condemning(s.tasks[i], h) ==> !Inserting(s.tasks[j], h)
  }

  predicate Unassociated(s: Snapshot, h: Hash) {
    forall a :: a in s.associations ==> a.hash != h
  }

  predicate AssociationsHonest(s: Snapshot, t: Task, h: Hash) {
    && (Condemning(t, h) ==> Unassociated(s, h))
    && (t.CopyTask? ==> t.destination.hash == t.source.hash)
    && (Inserting(t, h) ==> h in s.objects)
    && (t.PutTask? && t.put.PutIndexing? && t.a.hash == h ==> h in s.objects)
  }

  ghost predicate NoneDangles(s: State, h: Hash) {
    && (Unassociated(s.store, h) || h in s.store.objects)
    && (forall i :: 0 <= i < |s.tasks| ==> AssociationsHonest(s.store, s.tasks[i], h))
  }

  lemma StepLeavesNoneDangling(s: State, e: Event, h: Hash)
    requires Enabled(s, e) && PutsApart(s, h) && CopiesApart(s, h) && NoneDangles(s, h)
    ensures NoneDangles(After(s, e), h)
  {
    var t := After(s, e);
    OthersUntouched(s, e);
    if e.Advance? {
      assert AssociationsHonest(s.store, s.tasks[e.id], h);
      if s.tasks[e.id].CopyTask? || s.tasks[e.id].a.hash != h {
        OtherHashesUntouched(s, e, h);
      }
    }
    forall i | 0 <= i < |t.tasks|
      ensures AssociationsHonest(t.store, t.tasks[i], h)
    {
      AssociationsStayHonest(s, e, h, i);
    }
  }

  lemma AssociationsStayHonest(s: State, e: Event, h: Hash, i: nat)
    requires Enabled(s, e) && PutsApart(s, h) && CopiesApart(s, h) && NoneDangles(s, h) && i < |After(s, e).tasks|
    ensures AssociationsHonest(After(s, e).store, After(s, e).tasks[i], h)
  {
    OthersUntouched(s, e);
    if i == |s.tasks| || !e.Advance? {
      assert i < |s.tasks| ==> AssociationsHonest(s.store, s.tasks[i], h);
    } else {
      var actor, task := s.tasks[e.id], s.tasks[i];
      assert AssociationsHonest(s.store, actor, h) && AssociationsHonest(s.store, task, h);
      if actor.CopyTask? || actor.a.hash != h {
        OtherHashesUntouched(s, e, h);
      }
      if i != e.id {
        assert Condemning(task, h) ==> HoldingOf(task, h) && !WritingOf(actor, h) && !Inserting(actor, h);
        assert Condemning(actor, h) ==> HoldingOf(actor, h) && !WritingOf(task, h) && !Inserting(task, h);
      }
    }
  }

  lemma {:induction false} RunsLeaveNoneDangling(states: seq<State>, events: seq<Event>, h: Hash, n: nat)
    requires IsRun(states, events) && n < |states|
    requires forall i :: 0 <= i < n ==> PutsApart(states[i], h) && CopiesApart(states[i], h)
    ensures NoneDangles(states[n], h)
  {
    if n > 0 {
      RunsLeaveNoneDangling(states, events, h, n - 1);
      StepLeavesNoneDangling(states[n - 1], events[n - 1], h);
    }
  }

  /** The safety of concurrent obliterators, hash by hash and whatever the contents put: at most one holds the hash; its
      payload is deleted only when no association of it exists; and while the payload is gone, none exists. */
  lemma ObliteratorsAreSafe(states: seq<State>, events: seq<Event>, h: Hash, n: nat)
    requires IsRun(states, events) && n < |states|
    requires forall i :: 0 <= i < n ==> PutsApart(states[i], h) && CopiesApart(states[i], h)
    ensures
      var s := states[n];
      && (forall i, j :: 0 <= i < j < |s.tasks| && HoldingOf(s.tasks[i], h) ==> !HoldingOf(s.tasks[j], h))
      && (forall i :: 0 <= i < |s.tasks| && Condemning(s.tasks[i], h) ==> Unassociated(s.store, h))
      && (h !in s.store.objects ==> Unassociated(s.store, h))
  {
    RunsHoldLocks(states, events, h, n);
    RunsLeaveNoneDangling(states, events, h, n);
    var s := states[n];
    forall i | 0 <= i < |s.tasks| && Condemning(s.tasks[i], h)
      ensures Unassociated(s.store, h)
    {
      assert AssociationsHonest(s.store, s.tasks[i], h);
    }
  }

  // ---------------------------------------------------------------------------
  // Provenance: no premises at all
  // ---------------------------------------------------------------------------

  /** The event at `i` commits a put of `h`. */
  ghost predicate CommitsPut(states: seq<State>, events: seq<Event>, i: nat, h: Hash)
    requires IsRun(states, events) && i < |events|
  {
    && events[i].Advance?
    && var t := states[i].tasks[events[i].id];
       t.PutTask? && t.put.PutIndexing? && t.a.hash == h
  }

  ghost predicate PutBefore(states: seq<State>, events: seq<Event>, n: nat, h: Hash)
    requires IsRun(states, events) && n < |states|
  {
    exists i :: 0 <= i < n && CommitsPut(states, events, i, h)
  }

  predicate CopiesStored(s: Snapshot, t: Task) {
    t.CopyTask? ==> t.destination.hash == t.source.hash && (Inserting(t, t.source.hash) ==> t.source.hash in s.metadata)
  }

  /** An association always has a metadata row. */
  ghost predicate Indexed(s: State) {
    && (forall a :: a in s.store.associations ==> a.hash in s.store.metadata)
    && (forall i :: 0 <= i < |s.tasks| ==> CopiesStored(s.store, s.tasks[i]))
  }

  /** The set of hashes with a metadata row never shrinks, and only a committing put makes it grow. */
  lemma MetadataKeysGrow(s: State, e: Event)
    requires Enabled(s, e)
    ensures s.store.metadata.Keys <= After(s, e).store.metadata.Keys
    ensures forall h :: h in After(s, e).store.metadata && h !in s.store.metadata ==>
              e.Advance? && s.tasks[e.id].PutTask? && s.tasks[e.id].put.PutIndexing? && s.tasks[e.id].a.hash == h
  {
  }

  lemma StepStaysIndexed(s: State, e: Event)
    requires Enabled(s, e) && Indexed(s)
    ensures Indexed(After(s, e))
  {
    OthersUntouched(s, e);
    MetadataKeysGrow(s, e);
    var t := After(s, e);
    if e.Advance? {
      assert CopiesStored(s.store, s.tasks[e.id]);
    }
    forall i | 0 <= i < |t.tasks|
      ensures CopiesStored(t.store, t.tasks[i])
    {
      assert i < |s.tasks| ==> CopiesStored(s.store, s.tasks[i]);
    }
  }

  /** An association appears only through a committing put of that very address or a copy to it. */
  lemma AssociationsAppear(s: State, e: Event, a: Association)
    requires Enabled(s, e) && a in After(s, e).store.associations && a !in s.store.associations
    ensures e.Advance?
    ensures
      var t := s.tasks[e.id];
      (t.PutTask? && t.put.PutIndexing? && t.a == a) || (Inserting(t, a.hash) && t.destination == a)
  {
  }

  ghost predicate AllRowsPut(states: seq<State>, events: seq<Event>, n: nat)
    requires IsRun(states, events) && n < |states|
  {
    forall h :: h in states[n].store.metadata ==> PutBefore(states, events, n, h)
  }

  /** Every metadata row goes back to a committed put of its hash, and every association, through however many
      copies, has such a row. */
  lemma {:induction false} AssociationsComeFromPuts(states: seq<State>, events: seq<Event>, n: nat)
    requires IsRun(states, events) && n < |states|
    ensures Indexed(states[n]) && AllRowsPut(states, events, n)
    ensures forall a :: a in states[n].store.associations ==> PutBefore(states, events, n, a.hash)
  {
    if n > 0 {
      AssociationsComeFromPuts(states, events, n - 1);
      StepStaysIndexed(states[n - 1], events[n - 1]);
      RowsComeFromPuts(states, events, n);
    }
  }

  lemma RowsComeFromPuts(states: seq<State>, events: seq<Event>, n: nat)
    requires IsRun(states, events) && 0 < n < |states| && AllRowsPut(states, events, n - 1)
    ensures AllRowsPut(states, events, n)
  {
    MetadataKeysGrow(states[n - 1], events[n - 1]);
    forall h | h in states[n].store.metadata
      ensures PutBefore(states, events, n, h)
    {
      if h in states[n - 1].store.metadata {
        var i :| 0 <= i < n - 1 && CommitsPut(states, events, i, h);
      } else {
        assert CommitsPut(states, events, n - 1, h);
      }
    }
  }

  // ---------------------------------------------------------------------------
  // Isolation of repositories
  // ---------------------------------------------------------------------------

  /** The event is the statement by which copy `id` looks for its source. */
  predicate Checks(s: State, e: Event, id: TaskId)
    requires Enabled(s, e)
  {
    e == Advance(id) && s.tasks[id].CopyTask? && s.tasks[id].copy.CopyChecking?
  }

  /** A copy about to insert has found its hash in its source repository. */
  lemma {:induction false} InsertingHasChecked(states: seq<State>, events: seq<Event>, id: TaskId, n: nat)
    returns (c: nat)
    requires IsRun(states, events) && n <= |events| && id < |states[n].tasks|
    requires states[n].tasks[id].CopyTask? && states[n].tasks[id].copy.CopyInserting?
    ensures c < n && Checks(states[c], events[c], id)
    ensures InRepository(states[c].store, states[n].tasks[id].source.hash, states[n].tasks[id].source.repository)
    ensures states[c].tasks[id].source == states[n].tasks[id].source
  {
    assert n > 0;
    var s, e := states[n - 1], events[n - 1];
    OthersUntouched(s, e);
    if Checks(s, e, id) {
      c := n - 1;
      CopyNeeds(s.store, s.tasks[id].source);
    } else {
      c := InsertingHasChecked(states, events, id, n - 1);
    }
  }

  /** The event commits a put of `h` in the repository. */
  predicate PutsInto(s: State, e: Event, h: Hash, repository: Context)
    requires Enabled(s, e)
  {
    && e.Advance? && s.tasks[e.id].PutTask? && s.tasks[e.id].put.PutIndexing?
    && s.tasks[e.id].a.hash == h && s.tasks[e.id].a.repository == repository
  }

  /** The event is the insert of a copy of `h` into the repository. */
  predicate CopiesInto(s: State, e: Event, h: Hash, repository: Context)
    requires Enabled(s, e)
  {
    && e.Advance? && Inserting(s.tasks[e.id], h)
    && s.tasks[e.id].source.hash == h && s.tasks[e.id].destination.repository == repository
  }

  /** Before `n`, `h` was put in the repository, or copied there from a repository that had it when the copy looked, and
      this goes back in the same way to a put. */
  ghost predicate Traced(states: seq<State>, events: seq<Event>, n: nat, h: Hash, repository: Context)
    requires IsRun(states, events) && n <= |events|
    decreases n
  {
    exists i: nat :: i < n
      && (PutsInto(states[i], events[i], h, repository)
          || (CopiesInto(states[i], events[i], h, repository)
              && exists c: nat :: c < i && Checks(states[c], events[c], events[i].id)
                   && InRepository(states[c].store, h, states[i].tasks[events[i].id].source.repository)
                   && Traced(states, events, c, h, states[i].tasks[events[i].id].source.repository)))
  }

  /** With no premise, over every interleaving and crashes included: a repository has a hash only if it goes back,
      through copies that each found it in the repository they name, to a put. */
  lemma {:induction false} AssociationsAreTraced(states: seq<State>, events: seq<Event>, n: nat, h: Hash,
                                                 repository: Context)
    requires IsRun(states, events) && n <= |events| && InRepository(states[n].store, h, repository)
    ensures Traced(states, events, n, h, repository)
    decreases n
  {
    assert n > 0;
    var s, e := states[n - 1], events[n - 1];
    if InRepository(s.store, h, repository) {
      AssociationsAreTraced(states, events, n - 1, h, repository);
      TracedStays(states, events, n - 1, h, repository);
    } else {
      var context :| Association(h, repository, context) in states[n].store.associations;
      AssociationsAppear(s, e, Association(h, repository, context));
      if !PutsInto(s, e, h, repository) {
        AssociationsComeFromPuts(states, events, n - 1);
        assert CopiesStored(s.store, s.tasks[e.id]);
        var c := InsertingHasChecked(states, events, e.id, n - 1);
        AssociationsAreTraced(states, events, c, h, s.tasks[e.id].source.repository);
      }
    }
  }

  lemma TracedStays(states: seq<State>, events: seq<Event>, n: nat, h: Hash, repository: Context)
    requires IsRun(states, events) && n < |events| && Traced(states, events, n, h, repository)
    ensures Traced(states, events, n + 1, h, repository)
  {
  }
}
