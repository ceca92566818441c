/** Runs in which one operation follows the other are the sequences of completed operations that the contract is
    about. */
module ImmutableHistories {
  import opened ByteStrings
  import opened Outcomes
  import opened Fragments
  import opened Snapshots
  import opened Purge
  import opened StoreContract
  import opened ImmutableProtocol
  import opened ImmutableSchedules
  import opened ImmutableOutcomes

  /** From `from` to `n` one operation is started and runs to its end with nothing else moving; an obliterate with all
      its sub-fragment tasks side by side. */
  ghost predicate Segment(states: seq<State>, events: seq<Event>, from: nat, n: nat)
    requires IsRun(states, events)
  {
    && from < n <= |events| && events[from].Start?
    && if events[from].task.ObliterateTask? then
         Undisturbed(states, events, from, n) && (RootDone(states, from, n, true) || RootDone(states, from, n, false))
       else
         && Alone(states, events, from, n)
         && |states[n].tasks| > 0 && Finished(Last(states[n].tasks))
  }

  /** The operation that it is. */
  function StepOf(states: seq<State>, event: Event, from: nat, n: nat): Step
    requires event.Start? && from < |states| && n < |states|
  {
    match event.task
    case PutTask(a, f, payload, _) => Put(a, f, payload)
    case CopyTask(source, destination, _) => Copy(source, destination)
    case ObliterateTask(a, _) => Step.Obliterate(iset{a.hash}, ScopeOf(a), RootDone(states, from, n, true))
    case GetTask(a, _, _, _) => Get(a)
  }

  lemma SegmentCompletes(states: seq<State>, events: seq<Event>, from: nat, n: nat)
    requires IsRun(states, events) && Segment(states, events, from, n)
    ensures Completes(states[from].store, StepOf(states, events[from], from, n), states[n].store)
  {
    match events[from].task
    case PutTask(_, _, _, _) =>
      var t := PutRunsAlone(states, events, from, n);
    case CopyTask(_, _, _) =>
      var t := CopyRunsAlone(states, events, from, n);
    case GetTask(_, _, _, _) =>
      var t := GetRunsAlone(states, events, from, n);
    case ObliterateTask(a, _) =>
      var ok := RootDone(states, from, n, true);
      var gone := EveryEndedRun(states, events, from, n, ok);
      if ok {
        PurgedErodes(states[from].store, Reach(states[from].store, iset{a.hash}), ScopeOf(a));
      }
  }

  /** A run cut into such segments. */
  ghost predicate OneByOne(states: seq<State>, events: seq<Event>, cuts: seq<nat>) {
    && IsRun(states, events)
    && |cuts| > 0 && cuts[0] == 0 && (forall i :: 0 <= i < |cuts| ==> cuts[i] < |states|)
    && forall i :: 0 <= i < |cuts| - 1 ==> Segment(states, events, cuts[i], cuts[i + 1])
  }

  ghost function StoresAt(states: seq<State>, cuts: seq<nat>): seq<Snapshot>
    requires forall i :: 0 <= i < |cuts| ==> cuts[i] < |states|
  {
    seq(|cuts|, i requires 0 <= i < |cuts| => states[cuts[i]].store)
  }

  ghost function StepsOf(states: seq<State>, events: seq<Event>, cuts: seq<nat>): seq<Step>
    requires OneByOne(states, events, cuts)
  {
    seq(|cuts| - 1, i requires 0 <= i < |cuts| - 1 =>
      assert Segment(states, events, cuts[i], cuts[i + 1]);
      StepOf(states, events[cuts[i]], cuts[i], cuts[i + 1]))
  }

  /** Such a run is a history of completed operations, whatever order the statements of an obliterate's tasks come in
      and whether or not it succeeds. */
  lemma OneByOneIsHistory(states: seq<State>, events: seq<Event>, cuts: seq<nat>)
    requires OneByOne(states, events, cuts)
    ensures IsHistory(StoresAt(states, cuts), StepsOf(states, events, cuts))
  {
    forall i | 0 <= i < |cuts| - 1
      ensures Completes(StoresAt(states, cuts)[i], StepsOf(states, events, cuts)[i], StoresAt(states, cuts)[i + 1])
    {
      assert Segment(states, events, cuts[i], cuts[i + 1]);
      SegmentCompletes(states, events, cuts[i], cuts[i + 1]);
    }
  }

  /** The `i`th operation puts this content under `h`. */
  predicate Puts(events: seq<Event>, cuts: seq<nat>, i: nat, h: Hash, content: (Fragment, Bytes)) {
    && i < |cuts| - 1 && cuts[i] < |events| && events[cuts[i]].Start?
    && var t := events[cuts[i]].task;
       t.PutTask? && t.a.hash == h && t.f == content.0 && t.payload == Some(content.1)
  }

  lemma PutStepPuts(states: seq<State>, events: seq<Event>, cuts: seq<nat>, i: nat)
    requires OneByOne(states, events, cuts) && i < |cuts| - 1
    ensures
      var step := StepsOf(states, events, cuts)[i];
      step.Put? && step.payload.Some? ==> Puts(events, cuts, i, step.a.hash, (step.f, step.payload.value))
  {
    assert Segment(states, events, cuts[i], cuts[i + 1]);
  }

  /** So after it an address that resolves reads as what one of the puts before was given, and the three readers agree
      on every address. */
  lemma OneByOneServesWhatWasPut(states: seq<State>, events: seq<Event>, cuts: seq<nat>, a: Association)
    requires OneByOne(states, events, cuts)
    ensures
      var s := states[cuts[|cuts| - 1]].store;
      && (Resolve(s, a) == Ok(MatchFull) <==> Got(s, a).Ok?)
      && (Resolve(s, a) == Ok(MatchFull) <==> GotMetadata(s, a).Ok? && GotMetadata(s, a).value.Some?)
      && (Got(s, a).Ok? ==> exists i: nat :: Puts(events, cuts, i, a.hash, Got(s, a).value))
  {
    var stores, steps := StoresAt(states, cuts), StepsOf(states, events, cuts);
    var n := |cuts| - 1;
    OneByOneIsHistory(states, events, cuts);
    HistoriesStayConsistent(stores, steps, n);
    ReadersAgree(stores[n], a);
    if Got(stores[n], a).Ok? {
      var i := LiveRowWasPut(stores, steps, n, a.hash);
      PutStepPuts(states, events, cuts, i);
      assert Puts(events, cuts, i, a.hash, Got(stores[n], a).value);
    }
  }
}
