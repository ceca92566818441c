/** What the immutable store's operations come to, said of its tables and objects alone. */
module StoreLaws {
  import opened ByteStrings
  import opened Outcomes
  import opened Fragments
  import opened Snapshots
  import opened Purge
  import opened StoreContract

  /** Neither obliteration flag. */
  predicate Unflagged(f: Fragment) {
    !f.flags.obliterating && !f.flags.obliterated
  }

  /** `b` is the payload of `h`: its object, or, when writes are forced, what comes after the sixteen bytes of header in
      front; and of the size the row gives. */
  predicate HasPayload(s: Snapshot, h: Hash, b: Bytes)
    requires h in s.metadata
  {
    && h in s.objects && |b| == s.metadata[h].sizePayload
    && (s.objects[h] == b || (s.forceWrite && |s.objects[h]| == |b| + 16 && s.objects[h][16..] == b))
  }

  lemma PayloadExactly(s: Snapshot, h: Hash, b: Bytes)
    requires h in s.metadata
    ensures PayloadAt(s, h) == Some(b) <==> HasPayload(s, h, b)
  {
  }

  // ---------------------------------------------------------------------------
  // Which hashes an obliterate reaches
  // ---------------------------------------------------------------------------

  /** The payload of the live fragmented hash `h` lists `y`, at whatever place. */
  ghost predicate Lists(s: Snapshot, h: Hash, y: Hash) {
    && h in s.metadata && Unflagged(s.metadata[h]) && s.metadata[h].flags.fragmented
    && exists b :: HasPayload(s, h, b) && y in LIBRARY.references(b)
  }

  lemma ListsExactly(s: Snapshot, h: Hash, y: Hash)
    ensures Lists(s, h, y) <==> Expands(s, h) && y in References(s, h)
  {
    if h in s.metadata {
      if b :| HasPayload(s, h, b) && y in LIBRARY.references(b) {
        PayloadExactly(s, h, b);
      }
      if PayloadAt(s, h).Some? {
        PayloadExactly(s, h, PayloadAt(s, h).value);
      }
    }
  }

  /** A hash is reached exactly if it is a root or listed by one that is reached. */
  lemma ReachedExactly(s: Snapshot, roots: iset<Hash>, y: Hash)
    ensures y in Reach(s, roots) <==> y in roots || exists h :: h in Reach(s, roots) && Lists(s, h, y)
  {
    ReachClosed(s, roots);
    if h :| h in Reach(s, roots) && Lists(s, h, y) {
      ListsExactly(s, h, y);
    }
    if y in Reach(s, roots) && y !in roots {
      var p :| ChainTo(s, roots, p, y);
      var n := |p| - 1;
      assert Expands(s, p[n - 1]) && p[n] in References(s, p[n - 1]);
      ListsExactly(s, p[n - 1], y);
      forall i | 0 <= i < |p[..n]| - 1
        ensures Expands(s, p[..n][i]) && p[..n][i + 1] in References(s, p[..n][i])
      {
        assert Expands(s, p[i]) && p[i + 1] in References(s, p[i]);
      }
      assert ChainTo(s, roots, p[..n], p[n - 1]);
    }
  }

  /** In particular, every entry of a reached payload is reached. */
  lemma EveryEntryIsReached(s: Snapshot, roots: iset<Hash>, h: Hash, i: nat)
    requires h in Reach(s, roots) && h in s.metadata && Unflagged(s.metadata[h]) && s.metadata[h].flags.fragmented
    requires h in s.objects && |s.objects[h]| == s.metadata[h].sizePayload
    requires i < |LIBRARY.references(s.objects[h])|
    ensures LIBRARY.references(s.objects[h])[i] in Reach(s, roots)
  {
    assert HasPayload(s, h, s.objects[h]);
    assert Lists(s, h, LIBRARY.references(s.objects[h])[i]);
    ReachedExactly(s, roots, LIBRARY.references(s.objects[h])[i]);
  }

  // ---------------------------------------------------------------------------
  // Obliterate
  // ---------------------------------------------------------------------------

  /** An obliterate can process `h`: the row is there with valid sizes, and a live fragmented one has its payload. */
  ghost predicate CanProcess(s: Snapshot, h: Hash) {
    && h in s.metadata && LIBRARY.sizeOk(s.metadata[h].sizePayload, s.metadata[h].sizeContent)
    && (Unflagged(s.metadata[h]) && s.metadata[h].flags.fragmented ==> exists b :: HasPayload(s, h, b))
  }

  lemma ObliterateSucceedsIff(s: Snapshot, t: Snapshot, roots: iset<Hash>, scope: Scope, ok: bool, gone: set<Hash>)
    requires Obliterates(s, t, roots, scope, ok, gone)
    ensures ok <==> forall h :: h in Reach(s, roots) ==> CanProcess(s, h)
  {
    forall h
      ensures Stored(s, h) <==> CanProcess(s, h)
    {
      if h in s.metadata && PayloadAt(s, h).Some? {
        PayloadExactly(s, h, PayloadAt(s, h).value);
      }
      if h in s.metadata {
        if b :| HasPayload(s, h, b) {
          PayloadExactly(s, h, b);
        }
      }
    }
  }

  /** Obliterating one hash: which error a missing row, bad sizes and a missing object give. Any other failure, in
      reading the payload or in obliterating what it lists, is internal. */
  lemma ObliterateAnswers(s: Snapshot, t: Snapshot, h: Hash, scope: Scope, r: Result<()>, gone: set<Hash>)
    requires Obliterates(s, t, iset{h}, scope, r.Ok?, gone) && (r.Err? ==> r.error == ObliterateError(s, h))
    ensures h !in s.metadata ==> r == Err(AddressNotFound)
    ensures h in s.metadata ==>
              var f := s.metadata[h];
              if !LIBRARY.sizeOk(f.sizePayload, f.sizeContent) then r == Err(InvalidFragment)
              else if !Unflagged(f) || !f.flags.fragmented then r == Ok(())
              else if h !in s.objects then r == Err(AddressNotFound)
              else r.Ok? || r.error == Internal
  {
    RootReached(s, iset{h}, h);
    assert h in Reach(s, iset{h});
    if !Expands(s, h) {
      UnexpandedReach(s, h);
      assert Stored(s, h) ==> r.Ok? && r.value == ();
    }
  }

  /** Somebody else has `h`: another repository, or another context of this one. */
  predicate HeldElsewhere(s: Snapshot, scope: Scope, h: Hash) {
    exists a :: a in s.associations && a.hash == h && !(a.repository == scope.repository && a.context == scope.context)
  }

  /** A successful obliterate takes the association of every live reached hash. If somebody else has the hash, its row
      and object stay as they are; otherwise the object goes and the row has the obliterated flag alone, and no sizes.
      */
  lemma ObliterateMeans(s: Snapshot, t: Snapshot, roots: iset<Hash>, scope: Scope, gone: set<Hash>, h: Hash)
    requires Obliterates(s, t, roots, scope, true, gone) && h in Reach(s, roots)
    requires h in s.metadata && Unflagged(s.metadata[h])
    ensures Association(h, scope.repository, scope.context) !in t.associations
    ensures
      if HeldElsewhere(s, scope, h) then
        && h in t.metadata && t.metadata[h] == s.metadata[h]
        && (h in t.objects <==> h in s.objects) && (h in s.objects ==> t.objects[h] == s.objects[h])
      else
        && h in t.metadata && t.metadata[h] == Fragment(Flags(false, true, false, 0), 0, 0) && h !in t.objects
  {
    assert HeldElsewhere(s, scope, h) <==> Shared(s, scope, h);
  }

  /** And it takes nothing else: no association of another repository, context, or hash, and no row or object of a
      hash that is flagged or not reached. */
  lemma ObliterateSpares(s: Snapshot, t: Snapshot, roots: iset<Hash>, scope: Scope, gone: set<Hash>, h: Hash)
    requires Obliterates(s, t, roots, scope, true, gone)
    ensures forall a :: a in t.associations ==> a in s.associations
    ensures forall a :: a in s.associations && !(a.repository == scope.repository && a.context == scope.context) ==>
              a in t.associations
    ensures h !in Reach(s, roots) || (h in s.metadata && !Unflagged(s.metadata[h])) ==>
              && (h in t.metadata <==> h in s.metadata) && (h in s.metadata ==> t.metadata[h] == s.metadata[h])
              && (h in t.objects <==> h in s.objects) && (h in s.objects ==> t.objects[h] == s.objects[h])
              && (forall a :: a in s.associations && a.hash == h ==> a in t.associations)
  {
  }

  /** One that fails has at least gone no further: only associations of the scope with live reached hashes can be
      gone, and the row of such a hash is as it was, or has the obliterating flag as well, or is a tombstone without
      object and association. No other row, object or association is touched. */
  lemma FailedObliterateLeaves(s: Snapshot, t: Snapshot, roots: iset<Hash>, scope: Scope, gone: set<Hash>, h: Hash)
    requires Obliterates(s, t, roots, scope, false, gone)
    ensures h in t.metadata <==> h in s.metadata
    ensures forall a :: a in t.associations ==> a in s.associations
    ensures forall a :: a in s.associations && a !in t.associations ==>
              && a.repository == scope.repository && a.context == scope.context && a.hash in Reach(s, roots)
              && a.hash in s.metadata && Unflagged(s.metadata[a.hash])
    ensures h in s.metadata && t.metadata[h] != s.metadata[h] ==>
              && h in Reach(s, roots) && Unflagged(s.metadata[h])
              && (|| t.metadata[h] == s.metadata[h].(flags := s.metadata[h].flags.(obliterating := true))
                  || (t.metadata[h] == Fragment(Flags(false, true, false, 0), 0, 0)
                      && h !in t.objects && forall a :: a in t.associations ==> a.hash != h))
    ensures h in s.objects && h !in t.objects ==>
              h in s.metadata && Unflagged(s.metadata[h]) &&
                t.metadata[h] == Fragment(Flags(false, true, false, 0), 0, 0)
    ensures h in t.objects ==> h in s.objects && t.objects[h] == s.objects[h]
  {
  }

  /** So no live hash that a reached payload lists, at whatever place, is associated in the scope any more. */
  lemma ListedAreUnlinked(s: Snapshot, t: Snapshot, roots: iset<Hash>, scope: Scope, gone: set<Hash>, h: Hash, y: Hash)
    requires Obliterates(s, t, roots, scope, true, gone) && h in Reach(s, roots) && Lists(s, h, y)
    requires y in s.metadata && Unflagged(s.metadata[y])
    ensures Association(y, scope.repository, scope.context) !in t.associations
  {
    ReachedExactly(s, roots, y);
    ObliterateMeans(s, t, roots, scope, gone, y);
  }

  // ---------------------------------------------------------------------------
  // Readers
  // ---------------------------------------------------------------------------

  /** A get returns a fragment and payload exactly if the association is there, the row has no flag and valid sizes,
      and the payload is there and passes validation. */
  lemma GetExactly(s: Snapshot, a: Association, f: Fragment, b: Bytes)
    ensures Got(s, a) == Ok((f, b)) <==>
            && a in s.associations && a.hash in s.metadata && s.metadata[a.hash] == f
            && Unflagged(f) && LIBRARY.sizeOk(f.sizePayload, f.sizeContent)
            && HasPayload(s, a.hash, b) && LIBRARY.payloadOk(f, |b|)
  {
    if a.hash in s.metadata {
      PayloadExactly(s, a.hash, b);
    }
  }

  /** Its errors, in the order in which they are looked for. */
  lemma GetFails(s: Snapshot, a: Association)
    requires Got(s, a).Err?
    ensures a !in s.associations || a.hash !in s.metadata ==> Got(s, a).error == AddressNotFound
    ensures
      a in s.associations && a.hash in s.metadata ==>
        var f := s.metadata[a.hash];
        Got(s, a).error ==
          if !LIBRARY.sizeOk(f.sizePayload, f.sizeContent) then InvalidFragment
          else if !Unflagged(f) || a.hash !in s.objects then AddressNotFound
          else if !exists b :: HasPayload(s, a.hash, b) then Internal
          else InvalidFragment
  {
    if a.hash in s.metadata {
      if PayloadAt(s, a.hash).Some? {
        PayloadExactly(s, a.hash, PayloadAt(s, a.hash).value);
      } else if b :| HasPayload(s, a.hash, b) {
        PayloadExactly(s, a.hash, b);
      }
    }
  }

  lemma GetMetadataExactly(s: Snapshot, a: Association)
    ensures forall f :: GotMetadata(s, a) == Ok(Some(f)) <==>
              && a in s.associations && a.hash in s.metadata && s.metadata[a.hash] == f
              && Unflagged(f) && LIBRARY.sizeOk(f.sizePayload, f.sizeContent)
    ensures GotMetadata(s, a) == Ok(None) <==>
            a !in s.associations || (a.hash in s.metadata && !Unflagged(s.metadata[a.hash]))
    ensures GotMetadata(s, a) == Err(AddressNotFound) <==> a in s.associations && a.hash !in s.metadata
  {
  }

  /** A migrated object, with a header in front: a get returns the bytes behind it when writes are forced, and an error
      when they are not. */
  lemma GetStripsHeader(s: Snapshot, a: Association, header: Bytes, b: Bytes)
    requires a in s.associations && a.hash in s.metadata && Unflagged(s.metadata[a.hash])
    requires LIBRARY.sizeOk(s.metadata[a.hash].sizePayload, s.metadata[a.hash].sizeContent)
    requires |b| == s.metadata[a.hash].sizePayload && LIBRARY.payloadOk(s.metadata[a.hash], |b|)
    requires |header| == 16 && a.hash in s.objects && s.objects[a.hash] == header + b
    ensures Got(s, a) == if s.forceWrite then Ok((s.metadata[a.hash], b)) else Err(Internal)
  {
    assert (header + b)[16..] == b;
    if s.forceWrite {
      GetExactly(s, a, s.metadata[a.hash], b);
    }
  }

  // ---------------------------------------------------------------------------
  // Put
  // ---------------------------------------------------------------------------

  /** What is asked of a put's own arguments. */
  predicate Acceptable(f: Fragment, payload: Option<Bytes>) {
    if payload.Some? then LIBRARY.payloadOk(f, |payload.value|) else LIBRARY.sizeOk(f.sizePayload, f.sizeContent)
  }

  lemma UnacceptablePut(s: Snapshot, a: Association, f: Fragment, payload: Option<Bytes>)
    ensures PutResult(s, a, f, payload) == Err(InvalidFragment) <==> !Acceptable(f, payload)
    ensures !Acceptable(f, payload) ==> AfterPut(s, a, f, payload) == s
  {
  }

  /** With forced writes, or at an address that no live row makes resolve, an acceptable put succeeds exactly if it
      brings a payload of the size its fragment gives, and then leaves that row, object and association. */
  lemma PutWrites(s: Snapshot, a: Association, f: Fragment, payload: Option<Bytes>)
    requires Acceptable(f, payload)
    requires s.forceWrite || a !in s.associations || a.hash !in s.metadata || !Unflagged(s.metadata[a.hash])
    ensures PutResult(s, a, f, payload) ==
            if payload.Some? && |payload.value| == f.sizePayload then Ok(()) else Err(Internal)
    ensures AfterPut(s, a, f, payload) ==
            if payload.Some? && |payload.value| == f.sizePayload
            then Snapshot(s.associations +
              {a}, s.metadata[a.hash := f], s.objects[a.hash := payload.value], s.forceWrite)
            else s
  {
  }

  /** Otherwise it changes nothing, and succeeds exactly if its content size is that of the row. */
  lemma PutFindsMatch(s: Snapshot, a: Association, f: Fragment, payload: Option<Bytes>)
    requires Acceptable(f, payload)
    requires !s.forceWrite && a in s.associations && a.hash in s.metadata && Unflagged(s.metadata[a.hash])
    ensures AfterPut(s, a, f, payload) == s
    ensures PutResult(s, a, f, payload) ==
            if f.sizeContent == s.metadata[a.hash].sizeContent then Ok(()) else Err(Internal)
  {
  }

  /** In particular at an address whose get succeeds. */
  lemma PutOverReadable(s: Snapshot, a: Association, f: Fragment, payload: Option<Bytes>)
    requires Acceptable(f, payload) && !s.forceWrite && Got(s, a).Ok?
    ensures AfterPut(s, a, f, payload) == s
    ensures PutResult(s, a, f, payload) ==
            if f.sizeContent == Got(s, a).value.0.sizeContent then Ok(()) else Err(Internal)
  {
    GetExactly(s, a, Got(s, a).value.0, Got(s, a).value.1);
    PutFindsMatch(s, a, f, payload);
  }

  lemma PutOverReadableOrNot(s: Snapshot, a: Association, f: Fragment, payload: Option<Bytes>)
    ensures Acceptable(f, payload) && !s.forceWrite && Got(s, a).Ok? ==>
              && AfterPut(s, a, f, payload) == s
              && PutResult(s, a, f, payload) ==
                   if f.sizeContent == Got(s, a).value.0.sizeContent then Ok(()) else Err(Internal)
  {
    if Acceptable(f, payload) && !s.forceWrite && Got(s, a).Ok? {
      PutOverReadable(s, a, f, payload);
    }
  }

  /** A forced put over what is there: the next get returns what was put last. */
  lemma ForcedPutReplaces(s: Snapshot, a: Association, f: Fragment, b: Bytes)
    requires s.forceWrite && Unflagged(f) && LIBRARY.payloadOk(f, |b|) && |b| == f.sizePayload
    ensures Got(AfterPut(s, a, f, Some(b)), a) == Ok((f, b))
  {
    PutWrites(s, a, f, Some(b));
    GetExactly(AfterPut(s, a, f, Some(b)), a, f, b);
  }

  // ---------------------------------------------------------------------------
  // Copy
  // ---------------------------------------------------------------------------

  /** A copy needs the very association it names; a zero context stands for any of the same repository, and of no
      other. */
  lemma CopyNeeds(s: Snapshot, source: Association)
    ensures source.context != ZERO_CONTEXT ==> (CopySource(s, source) <==> source in s.associations)
    ensures source.context == ZERO_CONTEXT ==>
              (CopySource(s, source) <==> exists c :: Association(source.hash, source.repository, c) in s.associations)
  {
    if a :| a in s.associations && a.hash == source.hash && a.repository == source.repository {
      assert Association(source.hash, source.repository, a.context) in s.associations;
    }
  }

  /** Then it adds the destination and nothing else. */
  lemma CopyAdds(s: Snapshot, source: Association, destination: Association)
    ensures AfterCopy(s, source, destination) ==
            if CopySource(s, source)
            then Snapshot(s.associations + {destination}, s.metadata, s.objects, s.forceWrite)
            else s
  {
  }

  // ---------------------------------------------------------------------------
  // Isolation of repositories
  // ---------------------------------------------------------------------------

  /** Some context of the repository has the hash. */
  ghost predicate InRepository(s: Snapshot, h: Hash, repository: Context) {
    exists c :: Association(h, repository, c) in s.associations
  }

  /** The step puts the hash in the repository, or copies it there from one that has it. */
  ghost predicate Brings(s: Snapshot, step: Step, h: Hash, repository: Context) {
    || (step.Put? && step.a.hash == h && step.a.repository == repository)
    || (step.Copy? && step.destination.hash == h && step.destination.repository == repository
        && step.source.hash == h && InRepository(s, h, step.source.repository))
  }

  lemma StepIsolates(s: Snapshot, step: Step, t: Snapshot, h: Hash, repository: Context)
    requires Completes(s, step, t) && InRepository(t, h, repository) && !InRepository(s, h, repository)
    ensures Brings(s, step, h, repository)
  {
    var c :| Association(h, repository, c) in t.associations;
    if step.Copy? {
      CopyNeeds(s, step.source);
    }
  }

  /** Over every sequence of completed operations, a repository has a hash only since a put there or a copy from a
      repository that had it then. */
  lemma {:induction false} HistoriesIsolate(states: seq<Snapshot>, steps: seq<Step>, n: nat, h: Hash,
                                            repository: Context)
    returns (i: nat)
    requires IsHistory(states, steps) && n < |states| && InRepository(states[n], h, repository)
    ensures i < n && Brings(states[i], steps[i], h, repository)
    ensures forall m :: i < m <= n ==> InRepository(states[m], h, repository)
  {
    assert n > 0;
    if InRepository(states[n - 1], h, repository) {
      i := HistoriesIsolate(states, steps, n - 1, h, repository);
    } else {
      i := n - 1;
      StepIsolates(states[i], steps[i], states[n], h, repository);
    }
  }
}
