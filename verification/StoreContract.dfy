/** What callers of the immutable store see, as functions of its contents, and the laws these obey. */
module StoreContract {
  import opened ByteStrings
  import opened Outcomes
  import opened Fragments
  import opened Snapshots
  import opened Purge

  datatype StoreMatch = MatchNone | MatchHash | MatchPartition | MatchFull

  datatype Address = Address(hash: Hash, context: Context)

  function At(repository: Context, address: Address): Association {
    Association(address.hash, repository, address.context)
  }

  // ---------------------------------------------------------------------------
  // What each reader answers, as a function of the contents
  // ---------------------------------------------------------------------------

  /** Exact matches only; a row that is being or has been obliterated hides its associations. */
  function Resolve(s: Snapshot, a: Association): (r: Result<StoreMatch>)
    ensures r.Ok? ==> r.value in {MatchNone, MatchFull}
    ensures r == Ok(MatchFull) <==> a in s.associations && LiveAt(s, a.hash)
    ensures r.Err? <==> a in s.associations && a.hash !in s.metadata
  {
    if a !in s.associations then Ok(MatchNone)
    else if a.hash !in s.metadata then Err(AddressNotFound)
    else if Live(s.metadata[a.hash]) then Ok(MatchFull)
    else Ok(MatchNone)
  }

  function LoadableMetadata(s: Snapshot, h: Hash): Result<Fragment> {
    if h !in s.metadata then Err(AddressNotFound)
    else if !SizeOk(s.metadata[h]) then Err(InvalidFragment)
    else if !Live(s.metadata[h]) then Err(AddressNotFound)
    else Ok(s.metadata[h])
  }

  function LoadablePayload(s: Snapshot, h: Hash): Result<Bytes>
    requires h in s.metadata
  {
    if h !in s.objects then Err(AddressNotFound)
    else if PayloadAt(s, h).None? then Err(Internal)
    else Ok(PayloadAt(s, h).value)
  }

  function Got(s: Snapshot, a: Association): Result<(Fragment, Bytes)> {
    if a !in s.associations then Err(AddressNotFound)
    else
      match LoadableMetadata(s, a.hash)
      case Err(e) => Err(e)
      case Ok(f) =>
        match LoadablePayload(s, a.hash)
        case Err(e) => Err(e)
        case Ok(b) => if LIBRARY.payloadOk(f, |b|) then Ok((f, b)) else Err(InvalidFragment)
  }

  function GotMetadata(s: Snapshot, a: Association): Result<Option<Fragment>> {
    match Resolve(s, a)
    case Err(e) => Err(e)
    case Ok(m) =>
      if m != MatchFull then Ok(None)
      else
        match LoadableMetadata(s, a.hash)
        case Err(e) => Err(e)
        case Ok(f) => Ok(Some(f))
  }

  /** What copying needs of its source: a zero context stands for any context of the repository. */
  predicate CopySource(s: Snapshot, source: Association) {
    if source.context == ZERO_CONTEXT
    then exists a :: a in s.associations && a.hash == source.hash && a.repository == source.repository
    else source in s.associations
  }

  function Written(s: Snapshot, a: Association, f: Fragment, payload: Bytes): Snapshot {
    s.(associations := s.associations + {a},
       metadata := s.metadata[a.hash := f],
       objects := s.objects[a.hash := payload])
  }

  /** A put stops at an exact match unless writes are forced. */
  predicate PutMatches(s: Snapshot, a: Association) {
    !s.forceWrite && Resolve(s, a) == Ok(MatchFull)
  }

  predicate PutValid(f: Fragment, payload: Option<Bytes>) {
    if payload.Some? then LIBRARY.payloadOk(f, |payload.value|) else SizeOk(f)
  }

  predicate Puttable(f: Fragment, b: Bytes) {
    Live(f) && LIBRARY.payloadOk(f, |b|) && |b| == f.sizePayload
  }

  function PutResult(s: Snapshot, a: Association, f: Fragment, payload: Option<Bytes>): Result<()> {
    if !PutValid(f, payload) then Err(InvalidFragment)
    else if PutMatches(s, a) then
      if s.metadata[a.hash].sizeContent == f.sizeContent then Ok(()) else Err(Internal)
    else if payload.Some? && |payload.value| == f.sizePayload then Ok(())
    else Err(Internal)
  }

  /** The error of an obliterate that does not succeed. */
  function ObliterateError(s: Snapshot, h: Hash): StoreError {
    if h !in s.metadata then AddressNotFound
    else if !SizeOk(s.metadata[h]) then InvalidFragment
    else if LiveAt(s, h) && s.metadata[h].flags.fragmented && h !in s.objects then AddressNotFound
    else Internal
  }

  // ---------------------------------------------------------------------------
  // Obliterating, as readers see it
  // ---------------------------------------------------------------------------

  /** A successful obliterate takes exactly the cut addresses away and leaves every other answer as it was,
      in particular those for sibling contexts of the same hash. */
  lemma ObliterateAsReadersSeeIt(s: Snapshot, reached: iset<Hash>, scope: Scope, a: Association)
    ensures
      var t := Purged(s, reached, scope);
      if Cut(s, reached, scope, a) then
        Resolve(t, a) == Ok(MatchNone) && GotMetadata(t, a) == Ok(None) && Got(t, a) == Err(AddressNotFound)
      else
        Resolve(t, a) == Resolve(s, a) && GotMetadata(t, a) == GotMetadata(s, a) && Got(t, a) == Got(s, a)
  {
    if !Cut(s, reached, scope, a) && a in s.associations {
      assert !Doomed(s, reached, scope, a.hash);
    }
  }

  /** When no association sits on a flagged row, the associations removed are those of all reachable hashes. */
  lemma ObliterateRemovesReachable(s: Snapshot, roots: iset<Hash>, scope: Scope)
    requires forall a :: a in s.associations ==> LiveAt(s, a.hash)
    ensures Purged(s, Reach(s, roots), scope).associations ==
            set a | a in s.associations && !(a == Of(scope, a.hash) && a.hash in Reach(s, roots))
  {
  }

  /** Whatever an obliterate's outcome, a read afterwards gives the old answer or finds nothing. */
  lemma ErodedReads(s: Snapshot, t: Snapshot, reached: iset<Hash>, scope: Scope, a: Association)
    requires Eroded(s, t, reached, scope)
    ensures Got(t, a) == Got(s, a) || Got(t, a) in {Err(AddressNotFound), Err(InvalidFragment)}
    ensures a.hash !in reached ==> Got(t, a) == Got(s, a)
  {
    if a in t.associations && LiveAt(t, a.hash) {
      assert t.metadata[a.hash] == s.metadata[a.hash];
    }
  }

  // ---------------------------------------------------------------------------
  // What completed operations keep
  // ---------------------------------------------------------------------------

  predicate RowServes(s: Snapshot, h: Hash)
    requires h in s.metadata
  {
    && SizeOk(s.metadata[h])
    && (Live(s.metadata[h]) ==>
          && h in s.objects
          && |s.objects[h]| == s.metadata[h].sizePayload
          && LIBRARY.payloadOk(s.metadata[h], |s.objects[h]|))
  }

  ghost predicate Consistent(s: Snapshot) {
    && (forall a :: a in s.associations ==> a.hash in s.metadata)
    && (forall h :: h in s.metadata ==> RowServes(s, h))
  }

  ghost predicate NoneOnTombstones(s: Snapshot) {
    forall a :: a in s.associations && a.hash in s.metadata ==> s.metadata[a.hash] != TOMBSTONE
  }

  /** The three readers agree on which addresses exist, and on the fragment. */
  lemma ReadersAgree(s: Snapshot, a: Association)
    requires Consistent(s)
    ensures Resolve(s, a) == Ok(MatchFull) <==> Got(s, a).Ok?
    ensures Resolve(s, a) == Ok(MatchFull) <==> GotMetadata(s, a).Ok? && GotMetadata(s, a).value.Some?
    ensures Got(s, a).Ok? ==>
              && GotMetadata(s, a).value == Some(Got(s, a).value.0)
              && Got(s, a).value == (s.metadata[a.hash], s.objects[a.hash])
    ensures !Got(s, a).Ok? ==> Got(s, a) == Err(AddressNotFound) && GotMetadata(s, a) == Ok(None)
  {
    if a.hash in s.metadata {
      assert RowServes(s, a.hash);
    }
  }

  /** A put that finds no match makes a get return exactly the fragment and bytes given, unless the fragment
      itself came with an obliteration flag; this includes putting again what was obliterated before. */
  lemma PutThenGet(s: Snapshot, a: Association, f: Fragment, payload: Bytes)
    requires PutResult(s, a, f, Some(payload)).Ok? && !PutMatches(s, a)
    ensures Got(Written(s, a, f, payload), a) == Ok((f, payload)) <==> Live(f)
  {
  }

  datatype Step =
    | Put(a: Association, f: Fragment, payload: Option<Bytes>)
    | Copy(source: Association, destination: Association)
    | Obliterate(roots: iset<Hash>, scope: Scope, ok: bool)
    | Get(a: Association)

  function AfterPut(s: Snapshot, a: Association, f: Fragment, payload: Option<Bytes>): Snapshot {
    if PutResult(s, a, f, payload).Ok? && !PutMatches(s, a) then Written(s, a, f, payload.value) else s
  }

  function AfterCopy(s: Snapshot, source: Association, destination: Association): Snapshot {
    if CopySource(s, source) then s.(associations := s.associations + {destination}) else s
  }

  /** One completed operation, successful or not. An obliterate that succeeds has purged what it reaches; one that
      fails, for whatever reason, has at least touched nothing else. */
  ghost predicate Completes(s: Snapshot, step: Step, t: Snapshot) {
    match step
    case Put(a, f, payload) => t == AfterPut(s, a, f, payload)
    case Copy(source, destination) => destination.hash == source.hash && t == AfterCopy(s, source, destination)
    case Obliterate(roots, scope, ok) =>
      && Eroded(s, t, Reach(s, roots), scope)
      && (ok ==> WellStored(s, roots) && t == Purged(s, Reach(s, roots), scope))
    case Get(_) => t == s
  }

  lemma StepKeepsConsistent(s: Snapshot, step: Step, t: Snapshot)
    requires Consistent(s) && Completes(s, step, t)
    ensures Consistent(t)
  {
    match step
    case Put(a, f, payload) =>
      if t != s {
        assert RowServes(t, a.hash);
        assert forall h :: h in s.metadata && h != a.hash ==> RowServes(s, h) && RowServes(t, h);
      }
    case Copy(source, destination) =>
      assert forall h :: h in t.metadata ==> RowServes(s, h) && RowServes(t, h);
    case Obliterate(roots, scope, ok) =>
      forall h | h in t.metadata
        ensures RowServes(t, h)
      {
        assert RowServes(s, h);
      }
    case Get(_) =>
  }

  /** As long as no put brings an obliteration flag along, no association comes to sit on a tombstone. */
  lemma StepKeepsOffTombstones(s: Snapshot, step: Step, t: Snapshot)
    requires Consistent(s) && NoneOnTombstones(s) && Completes(s, step, t)
    requires step.Put? ==> Live(step.f)
    ensures NoneOnTombstones(t)
  {
    match step
    case Put(a, f, payload) =>
    case Copy(source, destination) =>
      if CopySource(s, source) && destination.hash in s.metadata {
        var x :| x in s.associations && x.hash == destination.hash;
      }
    case Obliterate(roots, scope, ok) =>
    case Get(_) =>
  }

  ghost predicate IsHistory(states: seq<Snapshot>, steps: seq<Step>) {
    && |states| == |steps| + 1
    && states[0].associations == {} && states[0].metadata == map[] && states[0].objects == map[]
    && forall i :: 0 <= i < |steps| ==> Completes(states[i], steps[i], states[i + 1])
  }

  lemma {:induction false} HistoriesStayConsistent(states: seq<Snapshot>, steps: seq<Step>, n: nat)
    requires IsHistory(states, steps) && n < |states|
    ensures Consistent(states[n])
  {
    if n > 0 {
      HistoriesStayConsistent(states, steps, n - 1);
      StepKeepsConsistent(states[n - 1], steps[n - 1], states[n]);
    }
  }

  /** After any sequence of completed puts, copies and obliterates, an address that resolves can be read, and
      reads as one of the payloads that was put under its hash. */
  lemma HistoriesServeWhatWasPut(states: seq<Snapshot>, steps: seq<Step>, a: Association)
    requires IsHistory(states, steps)
    ensures
      var s := states[|steps|];
      Resolve(s, a) == Ok(MatchFull) ==>
        && Got(s, a).Ok?
        && exists i :: 0 <= i < |steps| && steps[i].Put? && steps[i].a.hash == a.hash
             && Got(s, a).value.0 == steps[i].f && Some(Got(s, a).value.1) == steps[i].payload
  {
    var s := states[|steps|];
    HistoriesStayConsistent(states, steps, |steps|);
    ReadersAgree(s, a);
    if Resolve(s, a) == Ok(MatchFull) {
      var i := LiveRowWasPut(states, steps, |steps|, a.hash);
    }
  }

  /** The row and object of a live hash are those of one and the same put. */
  lemma {:induction false} LiveRowWasPut(states: seq<Snapshot>, steps: seq<Step>, n: nat, h: Hash) returns (i: nat)
    requires IsHistory(states, steps) && n < |states| && LiveAt(states[n], h)
    ensures i < n && steps[i].Put? && steps[i].a.hash == h
    ensures h in states[n].objects
    ensures states[n].metadata[h] == steps[i].f && Some(states[n].objects[h]) == steps[i].payload
  {
    assert n > 0;
    var s, t, step := states[n - 1], states[n], steps[n - 1];
    assert Completes(s, step, t);
    if step.Put? && step.a.hash == h && PutResult(s, step.a, step.f, step.payload).Ok? && !PutMatches(s, step.a) {
      i := n - 1;
    } else {
      i := LiveRowWasPut(states, steps, n - 1, h);
    }
  }
}
