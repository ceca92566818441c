/** Any number of puts, copies, obliterates and gets on one immutable store, interleaved statement by statement,
    each of which may stop anywhere. */
module ImmutableProtocol {
  import opened ByteStrings
  import opened Outcomes
  import opened Fragments
  import opened Snapshots
  import opened StoreContract

  type TaskId = nat

  datatype PutPhase =
    | PutResolving                        // look for the exact association
    | PutCheckingRow                      // found: is its row live?
    | PutComparing                        // live a moment ago: compare with the stored row
    | PutWriting                          // no match: write the object
    | PutIndexing                         // object written: commit metadata and association
    | PutDone(ok: bool)

  datatype CopyPhase = CopyChecking | CopyInserting | CopyDone(ok: bool)

  datatype ObliteratePhase =
    | Loading
    | Locking(original: Fragment)         // about to mark the row if it has not changed
    | Listing(original: Fragment)         // locked: about to read the references
    | Waiting(original: Fragment, unspawned: seq<Hash>, children: seq<TaskId>)
    | Unlinking(original: Fragment)       // about to drop the association
    | Counting(original: Fragment)
    | Restoring(original: Fragment)       // still associated: give the row back
    | Deleting(original: Fragment)        // not associated: delete the object
    | Finalizing(original: Fragment)      // object deleted: write the tombstone
    | ObliterateDone(ok: bool)

  datatype Task =
    | PutTask(a: Association, f: Fragment, payload: Option<Bytes>, put: PutPhase)
    | CopyTask(source: Association, destination: Association, copy: CopyPhase)
    | ObliterateTask(a: Association, phase: ObliteratePhase)
    | GetTask(a: Association, exact: Option<bool>, row: Option<Result<Fragment>>, found: Option<Option<Bytes>>)

  /** Tasks are numbered in the order they start, so sub-fragment tasks come after their parent. */
  datatype State = State(store: Snapshot, tasks: seq<Task>)

  predicate Finished(t: Task) {
    match t
    case PutTask(_, _, _, put) => put.PutDone?
    case CopyTask(_, _, copy) => copy.CopyDone?
    case ObliterateTask(_, phase) => phase.ObliterateDone?
    case GetTask(_, exact, row, found) => exact.Some? && row.Some? && found.Some?
  }

  function Failed(t: Task): Task {
    match t
    case PutTask(a, f, payload, _) => PutTask(a, f, payload, PutDone(false))
    case CopyTask(source, destination, _) => CopyTask(source, destination, CopyDone(false))
    case ObliterateTask(a, _) => ObliterateTask(a, ObliterateDone(false))
    case GetTask(a, _, _, _) => GetTask(a, Some(false), Some(Err(Internal)), Some(None))
  }

  predicate Initial(t: Task) {
    match t
    case PutTask(_, f, payload, put) => PutValid(f, payload) && put == PutResolving
    case CopyTask(source, destination, copy) => destination.hash == source.hash && copy == CopyChecking
    case ObliterateTask(_, phase) => phase == Loading
    case GetTask(_, exact, row, found) => exact.None? && row.None? && found.None?
  }

  // ---------------------------------------------------------------------------
  // The statements
  // ---------------------------------------------------------------------------

  function PutStep(s: Snapshot, t: Task): (Snapshot, Task)
    requires t.PutTask? && !Finished(t)
  {
    var h := t.a.hash;
    match t.put
    case PutResolving =>
      (s, t.(put := if t.a in s.associations then PutCheckingRow else PutUnmatched(t)))
    case PutCheckingRow =>
      // A failed query counts as no match, and so does any when writes are forced.
      (s, t.(put := if LiveAt(s, h) && !s.forceWrite then PutComparing else PutUnmatched(t)))
    case PutComparing =>
      (s, t.(put := PutDone(
               && h in s.metadata
               && !s.metadata[h].flags.obliterating
               && (t.f.sizeContent == s.metadata[h].sizeContent || s.metadata[h].flags.obliterated))))
    case PutWriting =>
      (s.(objects := s.objects[h := if t.payload.Some? then t.payload.value else []]), t.(put := PutIndexing))
    case PutIndexing =>
      (s.(metadata := s.metadata[h := t.f], associations := s.associations + {t.a}), t.(put := PutDone(true)))
  }

  /** No match: go on to write if there is a payload of the right size, else fail. */
  function PutUnmatched(t: Task): PutPhase
    requires t.PutTask?
  {
    if t.payload.Some? && |t.payload.value| == t.f.sizePayload then PutWriting else PutDone(false)
  }

  function CopyStep(s: Snapshot, t: Task): (Snapshot, Task)
    requires t.CopyTask? && !Finished(t)
  {
    match t.copy
    case CopyChecking => (s, t.(copy := if CopySource(s, t.source) then CopyInserting else CopyDone(false)))
    case CopyInserting => (s.(associations := s.associations + {t.destination}), t.(copy := CopyDone(true)))
  }

  /** UPDATE ... WHERE the row still equals `expected`: the number of rows affected decides. */
  function Cas(s: Snapshot, h: Hash, updated: Fragment, expected: Fragment): (Snapshot, bool) {
    if h in s.metadata && s.metadata[h] == expected
    then (s.(metadata := s.metadata[h := updated]), true)
    else (s, false)
  }

  /** An obliterate's own statements; waiting for sub-fragments is a step of the whole state. */
  function ObliterateStep(s: Snapshot, t: Task): (Snapshot, Task)
    requires t.ObliterateTask? && !Finished(t) && !t.phase.Waiting?
  {
    var h := t.a.hash;
    match t.phase
    case Loading =>
      (s, t.(phase :=
             if h !in s.metadata || !SizeOk(s.metadata[h]) then ObliterateDone(false)
             else if !Live(s.metadata[h]) then ObliterateDone(true)
             else Locking(s.metadata[h])))
    case Locking(original) =>
      var (s', ok) := Cas(s, h, Marked(original), original);
      (s', t.(phase :=
              if !ok then ObliterateDone(false)
              else if original.flags.fragmented then Listing(original)
              else Unlinking(original)))
    case Listing(original) =>
      var payload := if h in s.objects then ReadPayload(s.forceWrite, s.objects[h], original) else None;
      (s, t.(phase :=
             if payload.Some? then Waiting(original, LIBRARY.references(payload.value), []) else ObliterateDone(false)))
    case Unlinking(original) =>
      (s.(associations := s.associations - {t.a}), t.(phase := Counting(original)))
    case Counting(original) =>
      var remain := exists a :: a in s.associations && a.hash == h;
      (s, t.(phase := if remain then Restoring(original) else Deleting(original)))
    case Restoring(original) =>
      var (s', ok) := Cas(s, h, original, Marked(original));
      (s', t.(phase := ObliterateDone(ok)))
    case Deleting(original) =>
      (s.(objects := s.objects - {h}), t.(phase := Finalizing(original)))
    case Finalizing(original) =>
      var (s', ok) := Cas(s, h, TOMBSTONE, Marked(original));
      (s', t.(phase := ObliterateDone(ok)))
  }

  datatype Read = ReadExact | ReadRow | ReadObject

  predicate GetWants(t: Task, read: Read)
    requires t.GetTask?
  {
    match read
    case ReadExact => t.exact.None?
    case ReadRow => t.row.None?
    case ReadObject => t.found.None?
  }

  function GetStep(s: Snapshot, t: Task, read: Read): Task
    requires t.GetTask?
  {
    var h := t.a.hash;
    match read
    case ReadExact => t.(exact := Some(t.a in s.associations))
    case ReadRow => t.(row := Some(LoadableMetadata(s, h)))
    case ReadObject => t.(found := Some(if h in s.objects then Some(s.objects[h]) else None))
  }

  /** What a finished get returns. */
  function GetResult(s: Snapshot, t: Task): Result<(Fragment, Bytes)>
    requires t.GetTask? && Finished(t)
  {
    if !t.exact.value then Err(AddressNotFound)
    else
      match t.row.value
      case Err(e) => Err(e)
      case Ok(f) =>
        if t.found.value.None? then Err(AddressNotFound)
        else
          match ReadPayload(s.forceWrite, t.found.value.value, f)
          case None => Err(Internal)
          case Some(b) => if LIBRARY.payloadOk(f, |b|) then Ok((f, b)) else Err(InvalidFragment)
  }

  // ---------------------------------------------------------------------------
  // Steps of the whole system
  // ---------------------------------------------------------------------------

  datatype Event =
    | Start(task: Task)
    | Advance(id: TaskId)
    | Fetch(id: TaskId, read: Read)
    | Spawn(id: TaskId)
    | Join(id: TaskId)
    | Abort(id: TaskId)        // a crash, or an error that the operation passes on
    | Misread(id: TaskId)      // an error while a put resolves its address, which it takes for no match

  predicate CanAdvance(t: Task) {
    !Finished(t) && !t.GetTask? && !(t.ObliterateTask? && t.phase.Waiting?)
  }

  function OwnStep(s: Snapshot, t: Task): (Snapshot, Task)
    requires CanAdvance(t)
  {
    match t
    case PutTask(_, _, _, _) => PutStep(s, t)
    case CopyTask(_, _, _) => CopyStep(s, t)
    case ObliterateTask(_, _) => ObliterateStep(s, t)
  }

  predicate Resolving(t: Task) {
    t.PutTask? && (t.put.PutResolving? || t.put.PutCheckingRow?)
  }

  predicate IsWaiting(t: Task) {
    t.ObliterateTask? && t.phase.Waiting?
  }

  predicate ChildrenFinished(s: State, t: Task)
    requires IsWaiting(t)
  {
    forall c :: c in t.phase.children ==> c < |s.tasks| && Finished(s.tasks[c])
  }

  predicate ChildrenSucceeded(s: State, t: Task)
    requires IsWaiting(t) && ChildrenFinished(s, t)
  {
    forall c :: c in t.phase.children ==> s.tasks[c].ObliterateTask? && s.tasks[c].phase == ObliterateDone(true)
  }

  predicate Enabled(s: State, e: Event) {
    match e
    case Start(task) => Initial(task)
    case Advance(id) => id < |s.tasks| && CanAdvance(s.tasks[id])
    case Fetch(id, read) => id < |s.tasks| && s.tasks[id].GetTask? && GetWants(s.tasks[id], read)
    case Spawn(id) => id < |s.tasks| && IsWaiting(s.tasks[id]) && s.tasks[id].phase.unspawned != []
    case Join(id) =>
      id < |s.tasks| && IsWaiting(s.tasks[id]) && s.tasks[id].phase.unspawned == [] && ChildrenFinished(s, s.tasks[id])
    case Abort(id) => id < |s.tasks| && !Finished(s.tasks[id])
    case Misread(id) => id < |s.tasks| && Resolving(s.tasks[id])
  }

  function After(s: State, e: Event): State
    requires Enabled(s, e)
  {
    match e
    case Start(task) => s.(tasks := s.tasks + [task])
    case Advance(id) =>
      var (store, task) := OwnStep(s.store, s.tasks[id]);
      State(store, s.tasks[id := task])
    case Fetch(id, read) => s.(tasks := s.tasks[id := GetStep(s.store, s.tasks[id], read)])
    case Spawn(id) =>
      var t := s.tasks[id];
      var sub := ObliterateTask(t.a.(hash := t.phase.unspawned[0]), Loading);
      var rest := t.phase.(unspawned := t.phase.unspawned[1..], children := t.phase.children + [|s.tasks|]);
      s.(tasks := s.tasks[id := t.(phase := rest)] + [sub])
    case Join(id) =>
      var t := s.tasks[id];
      var next := if ChildrenSucceeded(s, t) then Unlinking(t.phase.original) else ObliterateDone(false);
      s.(tasks := s.tasks[id := t.(phase := next)])
    case Abort(id) => s.(tasks := s.tasks[id := Failed(s.tasks[id])])
    case Misread(id) =>
      var t := s.tasks[id];
      s.(tasks := s.tasks[id := t.(put := PutUnmatched(t))])
  }

  ghost predicate IsRun(states: seq<State>, events: seq<Event>) {
    && |states| == |events| + 1
    && states[0].tasks == []
    && states[0].store.associations == {} && states[0].store.metadata == map[] && states[0].store.objects == map[]
    && forall i :: 0 <= i < |events| ==> Enabled(states[i], events[i]) && states[i + 1] == After(states[i], events[i])
  }

  function Last<T>(s: seq<T>): T
    requires s != []
  {
    s[|s| - 1]
  }

  /** Extend a run by one event. */
  lemma Grow(states: seq<State>, events: seq<Event>, e: Event) returns (states': seq<State>, events': seq<Event>)
    requires IsRun(states, events) && Enabled(Last(states), e)
    ensures IsRun(states', events') && Last(states') == After(Last(states), e)
    ensures states <= states' && events <= events' && |events'| == |events| + 1 && Last(events') == e
  {
    states', events' := states + [After(Last(states), e)], events + [e];
    forall i | 0 <= i < |events'|
      ensures Enabled(states'[i], events'[i]) && states'[i + 1] == After(states'[i], events'[i])
    {
      if i < |events| {
        assert states'[i] == states[i] && states'[i + 1] == states[i + 1] && events'[i] == events[i];
      }
    }
  }

  /** The last unfinished task, whose sub-fragments are therefore all finished. */
  lemma {:induction false} LastUnfinished(s: State, k: nat) returns (id: TaskId)
    requires k < |s.tasks| && !Finished(s.tasks[k])
    ensures id < |s.tasks| && !Finished(s.tasks[id])
    ensures forall j :: id < j < |s.tasks| ==> Finished(s.tasks[j])
    decreases |s.tasks| - k
  {
    if j :| k < j < |s.tasks| && !Finished(s.tasks[j]) {
      id := LastUnfinished(s, j);
    } else {
      id := k;
    }
  }

  function NextEvent(t: Task, id: TaskId): Event
    requires !Finished(t)
  {
    match t
    case GetTask(_, exact, row, _) =>
      Fetch(id, if exact.None? then ReadExact else if row.None? then ReadRow else ReadObject)
    case ObliterateTask(_, phase) =>
      if phase.Waiting? then (if phase.unspawned != [] then Spawn(id) else Join(id)) else Advance(id)
    case _ => Advance(id)
  }

  // ---------------------------------------------------------------------------
  // Mutual exclusion of obliterators
  // ---------------------------------------------------------------------------

  /** Between taking the lock on the row and giving it back. */
  predicate Holding(t: Task) {
    t.ObliterateTask? && !t.phase.Loading? && !t.phase.Locking? && !t.phase.ObliterateDone?
  }

  function Original(t: Task): Fragment
    requires Holding(t)
  {
    t.phase.original
  }

  /** A put past its checks: it is going to write the object, the row and the association. */
  predicate Writing(t: Task) {
    t.PutTask? && (t.put.PutWriting? || t.put.PutIndexing?)
  }

  predicate HoldingOf(t: Task, h: Hash) {
    Holding(t) && t.a.hash == h
  }

  predicate WritingOf(t: Task, h: Hash) {
    Writing(t) && t.a.hash == h
  }

  /** No put is writing `h` while an obliterator holds it. */
  ghost predicate PutsApart(s: State, h: Hash) {
    forall i, j :: 0 <= i < |s.tasks| && 0 <= j < |s.tasks| && HoldingOf(s.tasks[i], h) ==> !WritingOf(s.tasks[j], h)
  }

  predicate RowMarked(s: Snapshot, t: Task)
    requires Holding(t)
  {
    t.a.hash in s.metadata && s.metadata[t.a.hash] == Marked(Original(t))
  }

  /** What an obliterator has loaded was a live row. */
  predicate LoadedLive(t: Task) {
    t.ObliterateTask? && !t.phase.Loading? && !t.phase.ObliterateDone? ==> Live(t.phase.original)
  }

  ghost predicate AllLoadedLive(s: State) {
    forall i :: 0 <= i < |s.tasks| ==> LoadedLive(s.tasks[i])
  }

  /** At most one obliterator holds `h`, and its row carries its mark. */
  ghost predicate LockHeld(s: State, h: Hash) {
    && (forall i :: 0 <= i < |s.tasks| && HoldingOf(s.tasks[i], h) ==> RowMarked(s.store, s.tasks[i]))
    && (forall i, j :: 0 <= i < j < |s.tasks| && HoldingOf(s.tasks[i], h) ==> !HoldingOf(s.tasks[j], h))
  }

  /** The one task a step changes; a spawned or started task comes in addition. */
  function Actor(s: State, e: Event): TaskId {
    match e
    case Start(_) => |s.tasks|
    case Advance(id) => id
    case Fetch(id, _) => id
    case Spawn(id) => id
    case Join(id) => id
    case Abort(id) => id
    case Misread(id) => id
  }

  lemma OthersUntouched(s: State, e: Event)
    requires Enabled(s, e)
    ensures |s.tasks| <= |After(s, e).tasks| <= |s.tasks| + 1
    ensures forall i :: 0 <= i < |s.tasks| && i != Actor(s, e) ==> After(s, e).tasks[i] == s.tasks[i]
    ensures |After(s, e).tasks| > |s.tasks| ==> Initial(After(s, e).tasks[|s.tasks|])
    ensures Actor(s, e) < |s.tasks| ==>
              var t, t' := s.tasks[Actor(s, e)], After(s, e).tasks[Actor(s, e)];
              && (t.PutTask? <==> t'.PutTask?) && (t.CopyTask? <==> t'.CopyTask?) && (t.GetTask? <==> t'.GetTask?)
              && (!t.CopyTask? ==> t'.a == t.a)
    ensures !e.Advance? ==> After(s, e).store == s.store
  {
  }

  /** What a step does to the rows of hashes other than the actor's own. */
  lemma OtherHashesUntouched(s: State, e: Event, h: Hash)
    requires Enabled(s, e) && e.Advance?
    requires var t := s.tasks[e.id]; !t.CopyTask? ==> t.a.hash != h
    ensures var u := After(s, e).store;
            && (h in u.metadata <==> h in s.store.metadata) &&
              (h in u.metadata ==> u.metadata[h] == s.store.metadata[h])
            && (h in u.objects <==> h in s.store.objects) && (h in u.objects ==> u.objects[h] == s.store.objects[h])
  {
  }

  lemma StepLoadsLive(s: State, e: Event)
    requires Enabled(s, e) && AllLoadedLive(s)
    ensures AllLoadedLive(After(s, e))
  {
    OthersUntouched(s, e);
  }

  /** With no premise at all: only live rows are ever locked. */
  lemma {:induction false} RunsLoadLive(states: seq<State>, events: seq<Event>, n: nat)
    requires IsRun(states, events) && n < |states|
    ensures AllLoadedLive(states[n])
  {
    if n > 0 {
      RunsLoadLive(states, events, n - 1);
      StepLoadsLive(states[n - 1], events[n - 1]);
    }
  }

  lemma LockStaysHeld(s: State, e: Event, h: Hash)
    requires Enabled(s, e) && AllLoadedLive(s) && LockHeld(s, h) && PutsApart(s, h)
    ensures LockHeld(After(s, e), h)
  {
    var t := After(s, e);
    OthersUntouched(s, e);
    forall i | 0 <= i < |t.tasks| && HoldingOf(t.tasks[i], h)
      ensures RowMarked(t.store, t.tasks[i])
    {
      RowStaysMarked(s, e, h, i);
    }
    forall i, j | 0 <= i < j < |t.tasks| && HoldingOf(t.tasks[i], h)
      ensures !HoldingOf(t.tasks[j], h)
    {
      if i == Actor(s, e) {
        HoldersDiffer(s, e, h, j);
      } else if j == Actor(s, e) && j < |s.tasks| && HoldingOf(t.tasks[j], h) {
        HoldersDiffer(s, e, h, i);
      }
    }
  }

  lemma RowStaysMarked(s: State, e: Event, h: Hash, i: nat)
    requires Enabled(s, e) && AllLoadedLive(s) && LockHeld(s, h) && PutsApart(s, h)
    requires i < |After(s, e).tasks| && HoldingOf(After(s, e).tasks[i], h)
    ensures RowMarked(After(s, e).store, After(s, e).tasks[i])
  {
    OthersUntouched(s, e);
    if i < |s.tasks| && i != Actor(s, e) && e.Advance? {
      var actor := s.tasks[e.id];
      if actor.CopyTask? || actor.a.hash != h {
        OtherHashesUntouched(s, e, h);
      } else {
        assert HoldingOf(s.tasks[i], h) && !WritingOf(actor, h) && !HoldingOf(actor, h);
        assert Live(s.tasks[i].phase.original) && LoadedLive(actor);
      }
    }
  }

  lemma HoldersDiffer(s: State, e: Event, h: Hash, j: nat)
    requires Enabled(s, e) && AllLoadedLive(s) && LockHeld(s, h) && Actor(s, e) < |s.tasks|
    requires j < |After(s, e).tasks| && j != Actor(s, e) && HoldingOf(After(s, e).tasks[Actor(s, e)], h)
    ensures !HoldingOf(After(s, e).tasks[j], h)
  {
    OthersUntouched(s, e);
  }

  /** As long as no put writes `h` under an obliterator that holds it, at most one obliterator holds it at a time;
      what happens to other hashes does not matter. */
  lemma {:induction false} RunsHoldLocks(states: seq<State>, events: seq<Event>, h: Hash, n: nat)
    requires IsRun(states, events) && n < |states|
    requires forall i :: 0 <= i < n ==> PutsApart(states[i], h)
    ensures LockHeld(states[n], h)
  {
    if n > 0 {
      RunsHoldLocks(states, events, h, n - 1);
      RunsLoadLive(states, events, n - 1);
      LockStaysHeld(states[n - 1], events[n - 1], h);
    }
  }
}
