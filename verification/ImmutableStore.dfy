/** The immutable store: PostgreSQL association and metadata tables over an S3 bucket. */
module ImmutableStore {
  import opened ByteStrings
  import opened Outcomes
  import opened Fragments
  import opened Snapshots
  import opened Purge
  import opened StoreContract
  import opened StoreLaws

  // ---------------------------------------------------------------------------
  // The store
  // ---------------------------------------------------------------------------

  class StoreObliterateStats {
    var numFragments: nat
    var numPayloads: nat

    constructor ()
      ensures numFragments == 0 && numPayloads == 0
    {
      numFragments, numPayloads := 0, 0;
    }
  }

  class PgImmutableStore {
    const forceWrite: bool
    var fragments: set<Association>
    var rows: map<Hash, Columns>
    var bucket: map<Hash, Bytes>

    constructor (forceWrite: bool)
      ensures Valid() && Contents() == Snapshot({}, map[], map[], forceWrite)
    {
      this.forceWrite := forceWrite;
      fragments, rows, bucket := {}, map[], map[];
    }

    /** Every row was written by a cast from a fragment. */
    ghost predicate Valid()
      reads this
    {
      forall h :: h in rows ==> rows[h] == ToColumns(FromColumns(rows[h]))
    }

    ghost function Contents(): Snapshot
      reads this
    {
      Snapshot(fragments, map h | h in rows :: FromColumns(rows[h]), bucket, forceWrite)
    }

    // --- metadata table ------------------------------------------------------

    method LoadMetadata(h: Hash) returns (r: Result<Fragment>)
      ensures r == if h in Contents().metadata then Ok(Contents().metadata[h]) else Err(AddressNotFound)
    {
      if h in rows {
        r := Ok(FromColumns(rows[h]));
      } else {
        r := Err(AddressNotFound);
      }
    }

    method WriteMetadata(h: Hash, f: Fragment)
      requires Valid()
      modifies `rows
      ensures Valid()
      ensures Contents() == old(Contents()).(metadata := old(Contents()).metadata[h := f])
    {
      ColumnsRoundTrip(f);
      rows := rows[h := ToColumns(f)];
    }

    /** UPDATE ... WHERE all three columns match; a conflict is an error and changes nothing. */
    method UpdateMetadataCas(h: Hash, updated: Fragment, expected: Fragment) returns (r: Result<()>)
      requires Valid()
      modifies `rows
      ensures Valid()
      ensures r == if h in old(Contents()).metadata && old(Contents()).metadata[h] == expected then Ok(())
          else Err(Internal)
      ensures Contents() == if r.Ok? then old(Contents()).(metadata := old(Contents()).metadata[h := updated])
          else old(Contents())
    {
      ColumnsRoundTrip(updated);
      ColumnsRoundTrip(expected);
      if h in rows && rows[h] == ToColumns(expected) {
        rows := rows[h := ToColumns(updated)];
        r := Ok(());
      } else {
        r := Err(Internal);
      }
    }

    method MetadataWithSizeValidation(h: Hash) returns (r: Result<Fragment>)
      ensures r ==
              if h !in Contents().metadata then Err(AddressNotFound)
              else if !SizeOk(Contents().metadata[h]) then Err(InvalidFragment)
              else Ok(Contents().metadata[h])
    {
      r := LoadMetadata(h);
      if r.Ok? && !SizeOk(r.value) {
        r := Err(InvalidFragment);
      }
    }

    method MetadataWithLoadValidation(h: Hash) returns (r: Result<Fragment>)
      ensures r == LoadableMetadata(Contents(), h)
    {
      r := MetadataWithSizeValidation(h);
      if r.Ok? && !Live(r.value) {
        r := Err(AddressNotFound);
      }
    }

    // --- association table ---------------------------------------------------

    method DeleteAssociation(a: Association)
      modifies `fragments
      ensures Contents() == old(Contents()).(associations := old(Contents()).associations - {a})
    {
      fragments := fragments - {a};
    }

    method HasAssociations(h: Hash) returns (b: bool)
      ensures b <==> exists a :: a in Contents().associations && a.hash == h
    {
      var matching := set a | a in fragments && a.hash == h;
      b := |matching| > 0;
      if exists a :: a in Contents().associations && a.hash == h {
        var a :| a in Contents().associations && a.hash == h;
        assert a in matching;
      }
    }

    method AssociateFragment(a: Association)
      modifies `fragments
      ensures Contents() == old(Contents()).(associations := old(Contents()).associations + {a})
    {
      fragments := fragments + {a};
    }

    method ExistsExact(a: Association) returns (b: bool)
      ensures b <==> a in Contents().associations
    {
      b := a in fragments;
    }

    method ExistsRepository(h: Hash, repository: Context) returns (b: bool)
      ensures b <==> exists a :: a in Contents().associations && a.hash == h && a.repository == repository
    {
      b := exists a :: a in fragments && a.hash == h && a.repository == repository;
    }

    method ResolveAssociation(a: Association) returns (r: Result<StoreMatch>)
      ensures r == Resolve(Contents(), a)
    {
      if a !in fragments {
        return Ok(MatchNone);
      }
      var fragment := LoadMetadata(a.hash);
      if fragment.Err? {
        return Err(fragment.error);
      }
      if !Live(fragment.value) {
        return Ok(MatchNone);
      }
      r := Ok(MatchFull);
    }

    // --- payload bucket ------------------------------------------------------

    method DeletePayload(h: Hash)
      modifies `bucket
      ensures Contents() == old(Contents()).(objects := old(Contents()).objects - {h})
    {
      bucket := bucket - {h};
    }

    method ReadObject(h: Hash, f: Fragment) returns (r: Result<Bytes>)
      requires h in Contents().metadata && Contents().metadata[h].sizePayload == f.sizePayload
      ensures r == LoadablePayload(Contents(), h)
    {
      if h !in bucket {
        return Err(AddressNotFound);
      }
      var payload := ReadPayload(forceWrite, bucket[h], f);
      r := if payload.Some? then Ok(payload.value) else Err(Internal);
    }

    method Load(h: Hash) returns (r: Result<(Fragment, Bytes)>)
      ensures r ==
              match LoadableMetadata(Contents(), h) {
                case Err(e) => Err(e)
                case Ok(f) =>
                  match LoadablePayload(Contents(), h) {
                    case Err(e) => Err(e)
                    case Ok(b) => Ok((f, b))
                  }
              }
    {
      var metadata := MetadataWithLoadValidation(h);
      if metadata.Err? {
        return Err(metadata.error);
      }
      var payload := ReadObject(h, metadata.value);
      if payload.Err? {
        return Err(payload.error);
      }
      r := Ok((metadata.value, payload.value));
    }

    /** S3 first, then both index rows in one transaction. */
    method WritePayload(a: Association, f: Fragment, payload: Bytes) returns (r: Result<()>)
      requires Valid()
      modifies `fragments, `rows, `bucket
      ensures Valid()
      ensures r == if |payload| == f.sizePayload then Ok(()) else Err(Internal)
      ensures Contents() == if r.Ok? then Written(old(Contents()), a, f, payload) else old(Contents())
    {
      if |payload| != f.sizePayload {
        return Err(Internal);
      }
      bucket := bucket[a.hash := payload];
      WriteMetadata(a.hash, f);
      AssociateFragment(a);
      r := Ok(());
    }

    // --- readers -------------------------------------------------------------

    /** Resolves in order and stops at the first failure, leaving the later results as they were. */
    method Query(repository: Context, addresses: seq<Address>, results: array<StoreMatch>) returns (r: Result<()>)
      requires |addresses| == results.Length
      modifies results
      ensures r.Ok? <==> forall i :: 0 <= i < |addresses| ==> Resolve(Contents(), At(repository, addresses[i])).Ok?
      ensures r.Ok? ==> forall i :: 0 <= i < |addresses| ==>
          Resolve(Contents(), At(repository, addresses[i])) == Ok(results[i])
      ensures r.Err? ==> r.error == AddressNotFound
    {
      for i := 0 to |addresses|
        invariant forall k :: 0 <= k < i ==> Resolve(Contents(), At(repository, addresses[k])) == Ok(results[k])
      {
        var resolved := ResolveAssociation(At(repository, addresses[i]));
        if resolved.Err? {
          return Err(resolved.error);
        }
        results[i] := resolved.value;
      }
      r := Ok(());
    }

    method GetMetadata(repository: Context, address: Address) returns (r: Result<Option<Fragment>>)
      ensures r == GotMetadata(Contents(), At(repository, address))
    {
      var resolved := ResolveAssociation(At(repository, address));
      if resolved.Err? {
        return Err(resolved.error);
      }
      if resolved.value != MatchFull {
        return Ok(None);
      }
      var fragment := MetadataWithLoadValidation(address.hash);
      r := if fragment.Ok? then Ok(Some(fragment.value)) else Err(fragment.error);
    }

    /** The existence check and the load run side by side; a missing association is reported first. */
    method Get(repository: Context, address: Address) returns (r: Result<(Fragment, Bytes)>)
      ensures r == Got(Contents(), At(repository, address))
    {
      var loaded := Load(address.hash);
      var exact := ExistsExact(At(repository, address));
      if !exact {
        return Err(AddressNotFound);
      }
      if loaded.Err? {
        return Err(loaded.error);
      }
      if !LIBRARY.payloadOk(loaded.value.0, |loaded.value.1|) {
        return Err(InvalidFragment);
      }
      r := Ok(loaded.value);
    }

    // --- put and copy --------------------------------------------------------

    method Put(repository: Context, address: Address, unsanitised: Fragment, payload: Option<Bytes>)
      returns (r: Result<()>)
      requires Valid()
      modifies `fragments, `rows, `bucket
      ensures Valid()
      ensures r == PutResult(old(Contents()), At(repository, address), LIBRARY.sanitise(unsanitised), payload)
      ensures Contents() == AfterPut(old(Contents()), At(repository, address), LIBRARY.sanitise(unsanitised), payload)
      ensures
        var f, s := LIBRARY.sanitise(unsanitised), old(Contents());
        forceWrite && payload.Some? && LIBRARY.payloadOk(f, |payload.value|) && |payload.value| == f.sizePayload ==>
          && r == Ok(())
          && Contents() == Snapshot(s.associations + {Association(address.hash, repository, address.context)},
                                    s.metadata[address.hash := f], s.objects[address.hash := payload.value], true)
      ensures
        var f, got := LIBRARY.sanitise(unsanitised), Got(old(Contents()), At(repository, address));
        !forceWrite && Acceptable(f, payload) && got.Ok? ==>
          && Contents() == old(Contents())
          && r == if f.sizeContent == got.value.0.sizeContent then Ok(()) else Err(Internal)
    {
      PutOverReadableOrNot(Contents(), At(repository, address), LIBRARY.sanitise(unsanitised), payload);
      var fragment := LIBRARY.sanitise(unsanitised);
      if payload.Some? && !LIBRARY.payloadOk(fragment, |payload.value|) {
        return Err(InvalidFragment);
      }
      if payload.None? && !SizeOk(fragment) {
        return Err(InvalidFragment);
      }

      var a := At(repository, address);
      var query := ResolveAssociation(a);
      var matchMade := MatchNone;
      if !forceWrite && query.Ok? {
        matchMade := query.value;
        if matchMade != MatchNone {
          var stored := LoadMetadata(a.hash);
          // The match was made on a live row, so only a race between the two reads could show a flag here.
          assert stored.Ok? && Live(stored.value);
          if stored.value.flags.obliterating {
            return Err(Internal);
          }
          if fragment.sizeContent != stored.value.sizeContent && !stored.value.flags.obliterated {
            return Err(Internal);
          }
        }
      }

      match matchMade {
        case MatchFull =>
          r := Ok(());
        case MatchPartition =>
          assert false;  // resolving only ever reports exact matches
        case MatchHash =>
          assert false;
        case MatchNone =>
          if payload.None? {
            return Err(Internal);
          }
          r := WritePayload(a, fragment, payload.value);
      }
    }

    method Copy(sourceRepository: Context, source: Address, destinationRepository: Context, destinationContext: Context)
      returns (r: Result<()>)
      modifies `fragments
      ensures r == if CopySource(old(Contents()), At(sourceRepository, source)) then Ok(()) else Err(AddressNotFound)
      ensures Contents() == AfterCopy(old(Contents()), At(sourceRepository, source),
                                      Association(source.hash, destinationRepository, destinationContext))
      ensures source.context != ZERO_CONTEXT ==>
                (r.Ok? <==> Association(source.hash, sourceRepository, source.context) in old(fragments))
      ensures source.context == ZERO_CONTEXT ==>
                (r.Ok? <==> exists c :: Association(source.hash, sourceRepository, c) in old(fragments))
      ensures r.Ok? ==>
                fragments == old(fragments) + {Association(source.hash, destinationRepository, destinationContext)}
      ensures r.Err? ==> r.error == AddressNotFound && fragments == old(fragments)
    {
      CopyNeeds(Contents(), At(sourceRepository, source));
      var sourceExists: bool;
      if source.context == ZERO_CONTEXT {
        sourceExists := ExistsRepository(source.hash, sourceRepository);
      } else {
        sourceExists := ExistsExact(At(sourceRepository, source));
      }
      if !sourceExists {
        return Err(AddressNotFound);
      }
      AssociateFragment(Association(source.hash, destinationRepository, destinationContext));
      r := Ok(());
    }

    // --- obliterate ----------------------------------------------------------

    /** Obliterate one address: lock its row, obliterate the fragments it references, then unlink it. The counters
        grow by one payload for each hash tombstoned, and by at least one fragment for each association removed; if
        nobody else shares what is reachable, by one fragment for each hash tombstoned. */
    method Obliterate(repository: Context, address: Address, stats: StoreObliterateStats)
      returns (r: Result<()>, ghost gone: set<Hash>)
      requires Valid()
      modifies `fragments, `rows, `bucket, stats
      ensures Valid()
      ensures Obliterates(old(Contents()), Contents(), iset{address.hash}, Scope(repository, address.context), r.Ok?,
          gone)
      ensures r.Err? ==> r.error == ObliterateError(old(Contents()), address.hash)
      ensures address.hash !in old(Contents()).metadata ==> r == Err(AddressNotFound)
      ensures
        address.hash in old(Contents()).metadata ==>
          var f := old(Contents()).metadata[address.hash];
          if !LIBRARY.sizeOk(f.sizePayload, f.sizeContent) then r == Err(InvalidFragment)
          else if !Unflagged(f) || !f.flags.fragmented then r == Ok(())
          else if address.hash !in old(Contents()).objects then r == Err(AddressNotFound)
          else r.Ok? || r.error == Internal
      ensures stats.numPayloads == old(stats.numPayloads) + |gone|
      ensures stats.numFragments + |fragments| >= old(stats.numFragments + |fragments|)
      ensures NoneShared(old(Contents()), iset{address.hash}, Scope(repository, address.context)) ==>
          stats.numFragments == old(stats.numFragments) + |gone|
      decreases LiveRows(Contents()), 0
    {
      ghost var s, scope := Contents(), Scope(repository, address.context);
      var acquired := AcquireObliteration(address.hash);
      gone := {};
      if acquired.Err? {
        ObliteratesMissing(s, address.hash, scope);
        r := Err(acquired.error);
      } else if acquired.value.None? {
        ObliteratesFlagged(s, address.hash, scope);
        r := Ok(());
      } else {
        MarkFades(s, address.hash);
        r, gone := ObliterateAcquired(repository, address, acquired.value.value, stats, s);
      }
      ObliterateAnswers(s, Contents(), address.hash, scope, r, gone);
    }

    /** The rest of an obliterate that has marked its row; `s` is the store before that. */
    method ObliterateAcquired(repository: Context, address: Address, original: Fragment, stats: StoreObliterateStats,
                              ghost s: Snapshot)
      returns (r: Result<()>, ghost gone: set<Hash>)
      requires Valid()
      requires LiveAt(s, address.hash) && SizeOk(original)
      requires original == s.metadata[address.hash] && Contents() == Mark(s, address.hash)
      modifies `fragments, `rows, `bucket, stats
      ensures Valid()
      ensures Obliterates(s, Contents(), iset{address.hash}, Scope(repository, address.context), r.Ok?, gone)
      ensures r.Err? ==> r.error == ObliterateError(s, address.hash)
      ensures stats.numPayloads == old(stats.numPayloads) + |gone|
      ensures stats.numFragments + |fragments| >= old(stats.numFragments + |fragments|)
      ensures NoneShared(s, iset{address.hash}, Scope(repository, address.context)) ==>
          stats.numFragments == old(stats.numFragments) + |gone|
      decreases LiveRows(Contents()), 4
    {
      ghost var scope := Scope(repository, address.context);
      r, gone := ObliterateReferences(repository, address, original, stats, s);
      if r.Ok? {
        ghost var kept := Shared(Contents(), scope, address.hash);
        ghost var all := if kept then gone else gone + {address.hash};
        assert |all| == |gone| + if kept then 0 else 1;
        r := Unlink(At(repository, address), original, Marked(original), stats);
        gone := all;
      }
    }

    /** If the row, which is marked, is fragmented, read its payload and obliterate all it references. */
    method ObliterateReferences(repository: Context, address: Address, original: Fragment,
                                stats: StoreObliterateStats, ghost s: Snapshot)
      returns (r: Result<()>, ghost gone: set<Hash>)
      requires Valid()
      requires LiveAt(s, address.hash) && SizeOk(original)
      requires original == s.metadata[address.hash] && Contents() == Mark(s, address.hash)
      modifies `fragments, `rows, `bucket, stats
      ensures Valid()
      ensures address.hash in Contents().metadata && Contents().metadata[address.hash] == Marked(original)
      ensures NoneShared(s, iset{address.hash}, Scope(repository, address.context)) ==>
          !Shared(Contents(), Scope(repository, address.context), address.hash)
      ensures
        var t, h, scope := Contents(), address.hash, Scope(repository, address.context);
        h in t.metadata && h !in gone
        && if r.Ok? then Obliterates(s, Finish(t, h, original, scope), iset{h}, scope, true,
          if Shared(t, scope, h) then gone else gone + {h})
           else Obliterates(s, t, iset{h}, scope, false, gone) && r.error == ObliterateError(s, h)
      ensures stats.numPayloads == old(stats.numPayloads) + |gone|
      ensures stats.numFragments + |fragments| >= old(stats.numFragments + |fragments|)
      ensures NoneShared(s, iset{address.hash}, Scope(repository, address.context)) ==>
          stats.numFragments == old(stats.numFragments) + |gone|
      decreases LiveRows(Contents()), 3
    {
      ghost var scope := Scope(repository, address.context);
      var h := address.hash;
      RootReached(s, iset{h}, h);
      if !Marked(original).flags.fragmented {
        ObliteratesSingle(s, h, scope);
        assert {} + {h} == {h};
        return Ok(()), {};
      }
      var payload := ReadObject(h, original);
      if payload.Err? {
        ObliteratesUnreadable(s, h, scope);
        return Err(payload.error), {};
      }
      var references := LIBRARY.references(payload.value);
      assert References(s, h) == references;
      var ok;
      if NoneShared(s, iset{h}, scope) {
        NoneSharedBelow(s, h, scope);
      }
      ok, gone := ObliterateSubFragments(repository, address.context, references, stats);
      ObliteratesTree(s, Contents(), h, scope, ok, gone);
      r := if ok then Ok(()) else Err(Internal);
    }

    /** Load the row and mark it by compare-and-swap; nothing to acquire when it is flagged already. */
    method AcquireObliteration(h: Hash) returns (r: Result<Option<Fragment>>)
      requires Valid()
      modifies `rows
      ensures Valid()
      ensures
        var s := old(Contents());
        if h !in s.metadata || !SizeOk(s.metadata[h]) then r == Err(ObliterateError(s, h)) && Contents() == s
        else if !LiveAt(s, h) then r == Ok(None) && Contents() == s
        else r == Ok(Some(s.metadata[h])) && Contents() == Mark(s, h)
    {
      ghost var s := Contents();
      var loaded := MetadataWithSizeValidation(h);
      if loaded.Err? {
        return Err(loaded.error);
      }
      var original := loaded.value;
      if !Live(original) {
        return Ok(None);
      }
      var locked := UpdateMetadataCas(h, Marked(original), original);
      assert locked.Ok?;
      r := Ok(Some(original));
    }

    /** Obliterate every referenced fragment in the caller's repository and context, one at a time and in
        whatever order the scheduler takes them; a failure does not stop the others. */
    method ObliterateSubFragments(repository: Context, context: Context, references: seq<Hash>,
                                  stats: StoreObliterateStats)
      returns (ok: bool, ghost gone: set<Hash>)
      requires Valid()
      modifies `fragments, `rows, `bucket, stats
      ensures Valid()
      ensures Obliterates(old(Contents()), Contents(), Roots(references), Scope(repository, context), ok, gone)
      ensures stats.numPayloads == old(stats.numPayloads) + |gone|
      ensures stats.numFragments + |fragments| >= old(stats.numFragments + |fragments|)
      ensures NoneShared(old(Contents()), Roots(references), Scope(repository, context)) ==>
          stats.numFragments == old(stats.numFragments) + |gone|
      decreases LiveRows(Contents()), 2
    {
      ghost var m, scope, all := Contents(), Scope(repository, context), Roots(references);
      ghost var t, done, alone := m, iset{}, NoneShared(m, all, scope);
      var failures := false;
      var pending := multiset(references);
      gone := {};
      ProgressStart(m, all, scope);
      while pending != multiset{}
        invariant Valid() && t == Contents()
        invariant forall x :: x in all <==> x in done || x in pending
        invariant Progress(m, t, done, all, scope, failures, gone)
        invariant stats.numPayloads == old(stats.numPayloads) + |gone|
        invariant stats.numFragments + |fragments| >= old(stats.numFragments + |fragments|)
        invariant alone ==> stats.numFragments == old(stats.numFragments) + |gone|
        decreases pending
      {
        var child :| child in pending;
        pending := pending - multiset{child};
        ErodedKeepsNoNewLive(m, t, Reach(m, all), scope);
        var result;
        result, gone := ObliterateNext(repository, Address(child, context), stats, m, t, done, all, failures, gone);
        failures := failures || result.Err?;
        t, done := Contents(), done + iset{child};
        assert Progress(m, t, done, all, scope, failures, gone);
      }
      assert done == all;
      ok := !failures;
    }

    /** One of them, after those in `done`. */
    method ObliterateNext(repository: Context, address: Address, stats: StoreObliterateStats, ghost m: Snapshot,
                          ghost t: Snapshot, ghost done: iset<Hash>, ghost all: iset<Hash>, ghost failures: bool,
                          ghost before: set<Hash>)
      returns (r: Result<()>, ghost gone: set<Hash>)
      requires Valid() && t == Contents() && address.hash in all
      requires Progress(m, t, done, all, Scope(repository, address.context), failures, before)
      modifies `fragments, `rows, `bucket, stats
      ensures Valid()
      ensures Progress(m, Contents(), done + iset{address.hash}, all, Scope(repository, address.context), failures ||
          r.Err?, gone)
      ensures stats.numPayloads == old(stats.numPayloads) + |gone| - |before|
      ensures stats.numFragments + |fragments| >= old(stats.numFragments + |fragments|)
      ensures NoneShared(m, all, Scope(repository, address.context)) ==>
          stats.numFragments == old(stats.numFragments) + |gone| - |before|
      decreases LiveRows(Contents()), 1
    {
      ghost var scope := Scope(repository, address.context);
      if NoneShared(m, all, scope) {
        NoneSharedNext(m, t, all, address.hash, scope);
      }
      ghost var more;
      r, more := Obliterate(repository, address, stats);
      ProgressStep(m, t, Contents(), done, all, address.hash, scope, failures, r.Ok?, before, more);
      gone := before + more;
    }

    /** The last steps of an obliterate: drop the association, then give the row back or tombstone it. */
    method Unlink(a: Association, original: Fragment, updated: Fragment, stats: StoreObliterateStats)
      returns (r: Result<()>)
      requires Valid() && Live(original) && updated == Marked(original)
      requires a.hash in Contents().metadata && Contents().metadata[a.hash] == updated
      modifies `fragments, `rows, `bucket, stats
      ensures Valid() && r.Ok?
      ensures Contents() == Finish(old(Contents()), a.hash, original, Scope(a.repository, a.context))
      ensures stats.numPayloads ==
          old(stats.numPayloads) + (if Shared(old(Contents()), Scope(a.repository, a.context), a.hash) then 0 else 1)
      ensures stats.numFragments == old(stats.numFragments) + 1
    {
      ghost var t := Contents();
      ghost var scope := Scope(a.repository, a.context);
      assert a == Of(scope, a.hash);
      DeleteAssociation(a);
      stats.numFragments := stats.numFragments + 1;
      var remain := HasAssociations(a.hash);
      assert remain <==> Shared(t, scope, a.hash);
      if remain {
        r := UpdateMetadataCas(a.hash, original, updated);
        return;
      }
      DeletePayload(a.hash);
      stats.numPayloads := stats.numPayloads + 1;
      var obliterated := updated.(flags := Flags(false, true, false, 0), sizePayload := 0, sizeContent := 0);
      r := UpdateMetadataCas(a.hash, obliterated, updated);
    }
  }
}
