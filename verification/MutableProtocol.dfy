/** Any number of compare-and-swaps, loads and plain stores, interleaved statement by statement. Each statement sees
    the table as committed at that moment, and any transaction may abort. */
module MutableProtocol {
  import opened MutableStore

  type LockId = int

  type TxnId = nat

  datatype Phase =
    | Requesting              // about to ask for the advisory lock of its cell
    | Locked                  // about to select
    | Read(current: Hash)     // about to upsert, or to commit if the comparison failed
    | Written(current: Hash)  // upserted but not committed
    | Committed(returned: Hash)
    | Aborted

  datatype Txn =
    | CasTxn(cell: Cell, expected: Hash, value: Hash, phase: Phase)
    | LoadTxn(cell: Cell, done: bool)
    | StoreTxn(cell: Cell, value: Hash, done: bool)

  /** What took effect, in order: a swap at its commit, a comparison that failed at its select, whether or not its
      reply gets out, a load or store at its statement. */
  datatype Entry =
    | CasEntry(cell: Cell, expected: Hash, value: Hash, returned: Hash)
    | LoadEntry(cell: Cell, returned: Hash)
    | StoreEntry(cell: Cell, value: Hash)

  datatype State = State(table: map<Cell, Hash>, locks: map<LockId, TxnId>, txns: seq<Txn>, log: seq<Entry>)

  datatype Event =
    | Start(txn: Txn)
    | Acquire(id: TxnId)
    | Select(id: TxnId)
    | Upsert(id: TxnId)
    | Commit(id: TxnId)
    | Abort(id: TxnId)
    | DoLoad(id: TxnId)
    | DoStore(id: TxnId)

  predicate IsCas(s: State, id: TxnId) {
    id < |s.txns| && s.txns[id].CasTxn?
  }

  /** Inside its transaction with the advisory lock. */
  predicate Holds(t: Txn) {
    t.CasTxn? && (t.phase.Locked? || t.phase.Read? || t.phase.Written?)
  }

  predicate Initial(t: Txn) {
    match t
    case CasTxn(_, _, _, phase) => phase == Requesting
    case LoadTxn(_, done) => !done
    case StoreTxn(_, _, done) => !done
  }

  predicate Enabled(lockId: Cell -> LockId, s: State, e: Event) {
    match e
    case Start(txn) => Initial(txn)
    case Acquire(id) => IsCas(s, id) && s.txns[id].phase.Requesting? && lockId(s.txns[id].cell) !in s.locks
    case Select(id) => IsCas(s, id) && s.txns[id].phase.Locked?
    case Upsert(id) => IsCas(s, id) && s.txns[id].phase.Read? && s.txns[id].phase.current == s.txns[id].expected
    case Commit(id) =>
      && IsCas(s, id)
      && (s.txns[id].phase.Written? || (s.txns[id].phase.Read? && s.txns[id].phase.current != s.txns[id].expected))
    case Abort(id) => IsCas(s, id) && !s.txns[id].phase.Committed? && !s.txns[id].phase.Aborted?
    case DoLoad(id) => id < |s.txns| && s.txns[id].LoadTxn? && !s.txns[id].done
    case DoStore(id) =>
      // An upsert holds its row until the transaction ends, so a store of that row waits; but a delete cannot see
      // an uncommitted insert.
      && id < |s.txns| && s.txns[id].StoreTxn? && !s.txns[id].done
      && (s.txns[id].value != ZERO || s.txns[id].cell in s.table ==>
            forall t :: t in s.txns && t.CasTxn? && t.phase.Written? ==> t.cell != s.txns[id].cell)
  }

  function Unlock(lockId: Cell -> LockId, s: State, id: TxnId): map<LockId, TxnId>
    requires id < |s.txns|
  {
    if Holds(s.txns[id]) then s.locks - {lockId(s.txns[id].cell)} else s.locks
  }

  function After(lockId: Cell -> LockId, s: State, e: Event): State
    requires Enabled(lockId, s, e)
  {
    match e
    case Start(txn) => s.(txns := s.txns + [txn])
    case Acquire(id) =>
      s.(locks := s.locks[lockId(s.txns[id].cell) := id], txns := s.txns[id := s.txns[id].(phase := Locked)])
    case Select(id) =>
      var t := s.txns[id];
      var current := SpecValue(s.table, t.cell);
      s.(txns := s.txns[id := t.(phase := Read(current))],
         log := if current == t.expected then s.log else s.log + [CasEntry(t.cell, t.expected, t.value, current)])
    case Upsert(id) => s.(txns := s.txns[id := s.txns[id].(phase := Written(s.txns[id].phase.current))])
    case Commit(id) =>
      var t := s.txns[id];
      State(
        if t.phase.Written? then s.table[t.cell := t.value] else s.table,
        Unlock(lockId, s, id),
        s.txns[id := t.(phase := Committed(t.phase.current))],
        if t.phase.Written? then s.log + [CasEntry(t.cell, t.expected, t.value, t.phase.current)] else s.log)
    case Abort(id) => s.(locks := Unlock(lockId, s, id), txns := s.txns[id := s.txns[id].(phase := Aborted)])
    case DoLoad(id) =>
      var t := s.txns[id];
      s.(txns := s.txns[id := t.(done := true)], log := s.log + [LoadEntry(t.cell, SpecValue(s.table, t.cell))])
    case DoStore(id) =>
      var t := s.txns[id];
      s.(table := TableStore(s.table, t.cell, t.value),
         txns := s.txns[id := t.(done := true)],
         log := s.log + [StoreEntry(t.cell, t.value)])
  }

  ghost predicate IsRun(lockId: Cell -> LockId, states: seq<State>, events: seq<Event>) {
    && |states| == |events| + 1
    && states[0] == State(map[], map[], [], [])
    && forall i :: 0 <= i < |events| ==>
         Enabled(lockId, states[i], events[i]) && states[i + 1] == After(lockId, states[i], events[i])
  }

  /** No plain store puts another value in `c` while a swap of `c` is between a select that found what it expects and
      its upsert. */
  ghost predicate StoresApart(s: State, e: Event, c: Cell) {
    StoresTo(s, e, c) ==>
      forall t :: t in s.txns && t.CasTxn? && t.cell == c && t.phase == Read(t.expected) ==>
        t.expected == s.txns[e.id].value
  }

  predicate StoresTo(s: State, e: Event, c: Cell) {
    e.DoStore? && e.id < |s.txns| && s.txns[e.id].StoreTxn? && s.txns[e.id].cell == c
  }

  // ---------------------------------------------------------------------------
  // The advisory lock
  // ---------------------------------------------------------------------------

  /** The lock table lists exactly the transactions past their lock statement, one per lock id. */
  ghost predicate LocksExact(lockId: Cell -> LockId, s: State) {
    && (forall id :: 0 <= id < |s.txns| && Holds(s.txns[id]) ==>
          lockId(s.txns[id].cell) in s.locks && s.locks[lockId(s.txns[id].cell)] == id)
    && (forall l :: l in s.locks ==>
      s.locks[l] < |s.txns| && Holds(s.txns[s.locks[l]]) && lockId(s.txns[s.locks[l]].cell) == l)
  }

  lemma LocksStayExact(lockId: Cell -> LockId, s: State, e: Event)
    requires Enabled(lockId, s, e) && LocksExact(lockId, s)
    ensures LocksExact(lockId, After(lockId, s, e))
  {
  }

  // ---------------------------------------------------------------------------
  // Linearizability
  // ---------------------------------------------------------------------------

  function Applied(before: Hash, entry: Entry, c: Cell): Hash {
    match entry
    case CasEntry(cell, expected, value, _) => if cell == c && before == expected then value else before
    case LoadEntry(_, _) => before
    case StoreEntry(cell, value) => if cell == c then value else before
  }

  /** The value of a cell after the logged effects, starting from zero. */
  function ValueAfter(log: seq<Entry>, c: Cell): Hash {
    if log == [] then ZERO else Applied(ValueAfter(log[..|log| - 1], c), log[|log| - 1], c)
  }

  /** Every reply about `c` is the one an atomic register gives at that point. */
  ghost predicate Atomic(log: seq<Entry>, c: Cell) {
    forall i :: 0 <= i < |log| ==> Answered(log, i, c)
  }

  ghost predicate Answered(log: seq<Entry>, i: nat, c: Cell)
    requires i < |log|
  {
    log[i].cell == c && !log[i].StoreEntry? ==> log[i].returned == ValueAfter(log[..i], c)
  }

  /** A swap that found what it expects still would. */
  predicate Current(s: State, t: Txn, c: Cell) {
    t.CasTxn? && t.cell == c && (t.phase == Read(t.expected) || t.phase.Written?) ==>
      t.expected == SpecValue(s.table, c)
  }

  predicate Found(t: Txn) {
    t.CasTxn? && t.phase.Written? ==> t.phase.current == t.expected
  }

  ghost predicate Linear(lockId: Cell -> LockId, s: State, c: Cell) {
    && LocksExact(lockId, s)
    && (forall id :: 0 <= id < |s.txns| ==> Current(s, s.txns[id], c) && Found(s.txns[id]))
    && Agrees(s, c)
  }

  /** The register replayed from the log answers as logged and ends at the value in the table. */
  ghost predicate Agrees(s: State, c: Cell) {
    Atomic(s.log, c) && ValueAfter(s.log, c) == SpecValue(s.table, c)
  }

  lemma AtomicGrows(log: seq<Entry>, entry: Entry, c: Cell)
    requires Atomic(log, c)
    requires entry.cell == c && !entry.StoreEntry? ==> entry.returned == ValueAfter(log, c)
    ensures Atomic(log + [entry], c)
  {
    var grown := log + [entry];
    forall i | 0 <= i < |grown|
      ensures Answered(grown, i, c)
    {
      assert grown[..i] == log[..i] && log[..|log|] == log;
      assert i < |log| ==> Answered(log, i, c);
    }
  }

  /** The log entry of an event. */
  function Logged(s: State, e: Event): seq<Entry> {
    if !(e.Select? || e.Commit? || e.DoLoad? || e.DoStore?) || e.id >= |s.txns| then []
    else
      match s.txns[e.id]
      case LoadTxn(cell, _) => [LoadEntry(cell, SpecValue(s.table, cell))]
      case StoreTxn(cell, value, _) => [StoreEntry(cell, value)]
      case CasTxn(cell, expected, value, phase) =>
        if e.Select? && SpecValue(s.table, cell) != expected
          then [CasEntry(cell, expected, value, SpecValue(s.table, cell))]
        else if e.Commit? && phase.Written? then [CasEntry(cell, expected, value, phase.current)]
        else []
  }

  lemma LogGrows(lockId: Cell -> LockId, s: State, e: Event)
    requires Enabled(lockId, s, e)
    ensures After(lockId, s, e).log == s.log + Logged(s, e)
  {
  }

  /** The swap that `e` commits on `c`, if any, still finds what it expects. */
  predicate CommitsFresh(s: State, e: Event, c: Cell) {
    e.Commit? && IsCas(s, e.id) && s.txns[e.id].cell == c && s.txns[e.id].phase.Written? ==>
      s.txns[e.id].phase.current == s.txns[e.id].expected == SpecValue(s.table, c)
  }

  lemma ValueStep(lockId: Cell -> LockId, s: State, e: Event, c: Cell)
    requires Enabled(lockId, s, e) && CommitsFresh(s, e, c)
    ensures Logged(s, e) == [] ==> SpecValue(After(lockId, s, e).table, c) == SpecValue(s.table, c)
    ensures Logged(s, e) != [] ==>
              && Logged(s, e) == [Logged(s, e)[0]]
              && SpecValue(After(lockId, s, e).table, c) == Applied(SpecValue(s.table, c), Logged(s, e)[0], c)
              && (Logged(s, e)[0].cell == c && !Logged(s, e)[0].StoreEntry? ==>
                Logged(s, e)[0].returned == SpecValue(s.table, c))
  {
  }

  /** Only the commit of a swap can make the log disagree with the register. */
  lemma StepAgrees(lockId: Cell -> LockId, s: State, e: Event, c: Cell)
    requires Enabled(lockId, s, e) && Agrees(s, c) && CommitsFresh(s, e, c)
    ensures Agrees(After(lockId, s, e), c)
  {
    LogGrows(lockId, s, e);
    ValueStep(lockId, s, e, c);
    if Logged(s, e) != [] {
      var entry := Logged(s, e)[0];
      AtomicGrows(s.log, entry, c);
      assert (s.log + [entry])[..|s.log|] == s.log;
    } else {
      assert s.log + Logged(s, e) == s.log;
    }
  }

  lemma StepStaysLinear(lockId: Cell -> LockId, s: State, e: Event, c: Cell)
    requires Enabled(lockId, s, e) && Linear(lockId, s, c) && StoresApart(s, e, c)
    ensures Linear(lockId, After(lockId, s, e), c)
  {
    LocksStayExact(lockId, s, e);
    TxnsStayCurrent(lockId, s, e, c);
    if e.Commit? {
      assert Current(s, s.txns[e.id], c) && Found(s.txns[e.id]);
    }
    StepAgrees(lockId, s, e, c);
  }

  lemma TxnsStayCurrent(lockId: Cell -> LockId, s: State, e: Event, c: Cell)
    requires Enabled(lockId, s, e) && Linear(lockId, s, c) && StoresApart(s, e, c)
    ensures
      var t := After(lockId, s, e);
      forall id :: 0 <= id < |t.txns| ==> Current(t, t.txns[id], c) && Found(t.txns[id])
  {
    var t := After(lockId, s, e);
    forall id | 0 <= id < |t.txns|
      ensures Current(t, t.txns[id], c) && Found(t.txns[id])
    {
      if id < |s.txns| {
        assert Current(s, s.txns[id], c) && Found(s.txns[id]) && s.txns[id] in s.txns;
        if Holds(s.txns[id]) && s.txns[id].cell == c {
          assert s.locks[lockId(c)] == id;  // so a committing swap of the same cell is this one
        }
      }
    }
  }

  /** Whatever lock ids collide and whatever aborts: as long as plain stores of a cell keep out of the window between
      the select of a swap that goes on and its upsert, the operations on that cell are those of an atomic register in
      the very order in which their effects reach the table. */
  lemma {:induction false} CasIsLinearizable(lockId: Cell -> LockId, states: seq<State>, events: seq<Event>, c: Cell,
                                             n: nat)
    requires IsRun(lockId, states, events) && n < |states|
    requires forall i :: 0 <= i < n ==> StoresApart(states[i], events[i], c)
    ensures Linear(lockId, states[n], c)
  {
    if n > 0 {
      CasIsLinearizable(lockId, states, events, c, n - 1);
      StepStaysLinear(lockId, states[n - 1], events[n - 1], c);
    }
  }

  // ---------------------------------------------------------------------------
  // Exactly when the order of effects is not that of a register
  // ---------------------------------------------------------------------------

  /** The value `c` had at `p`, or that of the last plain store of `c` since then. */
  ghost function Drift(states: seq<State>, events: seq<Event>, p: nat, n: nat, c: Cell): Hash
    requires p <= n <= |events| && |states| == |events| + 1
  {
    if n == p then SpecValue(states[p].table, c)
    else if StoresTo(states[n - 1], events[n - 1], c) then states[n - 1].txns[events[n - 1].id].value
    else Drift(states, events, p, n - 1, c)
  }

  /** Event `i` commits a swap of `c`, and since its select stores have taken `c` to a value other than it expects. */
  ghost predicate Torn(states: seq<State>, events: seq<Event>, i: nat, c: Cell)
    requires i < |events| && |states| == |events| + 1
  {
    && events[i].Commit? && IsCas(states[i], events[i].id)
    && var t := states[i].txns[events[i].id];
       && t.cell == c && t.phase.Written?
       && exists p :: 0 <= p < i && events[p] == Select(events[i].id) && Drift(states, events, p, i, c) != t.expected
  }

  /** What the select at `p` found, and what has become of it by `n`. */
  ghost predicate Tracked(states: seq<State>, events: seq<Event>, p: nat, n: nat, c: Cell)
    requires p < n <= |events| && |states| == |events| + 1
  {
    events[p].Select? ==>
      && IsCas(states[n], events[p].id)
      && var t := states[n].txns[events[p].id];
         && !t.phase.Requesting? && !t.phase.Locked?
         && (PastSelect(t) ==> t.phase.current == SpecValue(states[p].table, t.cell))
         && (t.cell == c && Holds(t) ==> SpecValue(states[n].table, c) == Drift(states, events, p, n, c))
  }

  ghost predicate NoneTorn(states: seq<State>, events: seq<Event>, n: nat, c: Cell)
    requires n <= |events| && |states| == |events| + 1
  {
    forall i :: 0 <= i < n ==> !Torn(states, events, i, c)
  }

  predicate PastSelect(t: Txn) {
    t.CasTxn? && (t.phase.Read? || t.phase.Written?)
  }

  ghost predicate Selected(events: seq<Event>, n: nat, id: TxnId)
    requires n <= |events|
  {
    exists p :: 0 <= p < n && events[p] == Select(id)
  }

  lemma {:induction false} RunsTrack(lockId: Cell -> LockId, states: seq<State>, events: seq<Event>, c: Cell, n: nat)
    requires IsRun(lockId, states, events) && n < |states|
    ensures LocksExact(lockId, states[n])
    ensures forall p :: 0 <= p < n ==> Tracked(states, events, p, n, c)
    ensures forall id :: 0 <= id < |states[n].txns| ==>
              Found(states[n].txns[id]) && (PastSelect(states[n].txns[id]) ==> Selected(events, n, id))
  {
    if n > 0 {
      RunsTrack(lockId, states, events, c, n - 1);
      LocksStayExact(lockId, states[n - 1], events[n - 1]);
      forall p | 0 <= p < n
        ensures Tracked(states, events, p, n, c)
      {
        StaysTracked(lockId, states, events, p, n, c);
      }
      forall id | 0 <= id < |states[n].txns| && PastSelect(states[n].txns[id])
        ensures Selected(events, n, id)
      {
        if events[n - 1] != Select(id) {
          assert PastSelect(states[n - 1].txns[id]);
          var p :| 0 <= p < n - 1 && events[p] == Select(id);
        }
      }
    }
  }

  /** Only stores and commits change a cell. */
  lemma TableStep(lockId: Cell -> LockId, s: State, e: Event, c: Cell)
    requires Enabled(lockId, s, e)
    ensures SpecValue(After(lockId, s, e).table, c) ==
            if StoresTo(s, e, c) then s.txns[e.id].value
            else if e.Commit? && s.txns[e.id].cell == c && s.txns[e.id].phase.Written? then s.txns[e.id].value
            else SpecValue(s.table, c)
  {
  }

  lemma StaysTracked(lockId: Cell -> LockId, states: seq<State>, events: seq<Event>, p: nat, n: nat, c: Cell)
    requires IsRun(lockId, states, events) && p < n < |states| && LocksExact(lockId, states[n - 1])
    requires p < n - 1 ==> Tracked(states, events, p, n - 1, c)
    ensures Tracked(states, events, p, n, c)
  {
    if events[p].Select? {
      var s, e, id := states[n - 1], events[n - 1], events[p].id;
      TableStep(lockId, s, e, c);
      if p < n - 1 && Holds(s.txns[id]) && s.txns[id].cell == c {
        assert s.locks[lockId(c)] == id;
        assert e.Commit? && s.txns[e.id].cell == c && Holds(s.txns[e.id]) ==> e.id == id;
      }
    }
  }

  /** A swap that commits on a value no longer there reports something an atomic register would not, if it took effect
      at its commit. */
  lemma StaleCommitIsNotAtomic(lockId: Cell -> LockId, s: State, id: TxnId)
    requires Enabled(lockId, s, Commit(id)) && s.txns[id].phase.Written?
    requires ValueAfter(s.log, s.txns[id].cell) == SpecValue(s.table, s.txns[id].cell)
    requires s.txns[id].phase.current != SpecValue(s.table, s.txns[id].cell)
    ensures !Atomic(After(lockId, s, Commit(id)).log, s.txns[id].cell)
  {
    var log := After(lockId, s, Commit(id)).log;
    assert log[..|s.log|] == s.log && log[|s.log|].returned == s.txns[id].phase.current;
    assert !Answered(log, |s.log|, s.txns[id].cell);
  }

  lemma AtomicShrinks(log: seq<Entry>, grown: seq<Entry>, c: Cell)
    requires log <= grown && Atomic(grown, c)
    ensures Atomic(log, c)
  {
    forall i | 0 <= i < |log|
      ensures Answered(log, i, c)
    {
      assert Answered(grown, i, c) && grown[i] == log[i] && grown[..i] == log[..i];
    }
  }

  /** Over every run, with no premise: in the order in which effects reach the table, a swap's at its commit, the
      replies about a cell are those of an atomic register if and only if no swap of it committed after plain stores
      had taken the cell to another value. */
  lemma {:induction false} StoreSpoilsExactly(lockId: Cell -> LockId, states: seq<State>, events: seq<Event>, c: Cell,
                                              n: nat)
    requires IsRun(lockId, states, events) && n < |states|
    ensures Atomic(states[n].log, c) <==> NoneTorn(states, events, n, c)
    ensures Atomic(states[n].log, c) ==> ValueAfter(states[n].log, c) == SpecValue(states[n].table, c)
  {
    if n > 0 {
      StoreSpoilsExactly(lockId, states, events, c, n - 1);
      StepSpoilsExactly(lockId, states, events, c, n - 1);
      assert NoneTorn(states, events, n, c) <==> NoneTorn(states, events, n - 1, c) && !Torn(states, events, n - 1, c);
    }
  }

  lemma StepSpoilsExactly(lockId: Cell -> LockId, states: seq<State>, events: seq<Event>, c: Cell, i: nat)
    requires IsRun(lockId, states, events) && i < |events|
    requires Atomic(states[i].log, c) ==> Agrees(states[i], c)
    ensures Atomic(states[i + 1].log, c) <==> Atomic(states[i].log, c) && !Torn(states, events, i, c)
    ensures Atomic(states[i + 1].log, c) ==> Agrees(states[i + 1], c)
  {
    var s, e := states[i], events[i];
    LogGrows(lockId, s, e);
    if !Atomic(s.log, c) {
      if Atomic(states[i + 1].log, c) {
        AtomicShrinks(s.log, states[i + 1].log, c);
      }
    } else if e.Commit? && s.txns[e.id].cell == c && s.txns[e.id].phase.Written? {
      CommitSpoilsExactly(lockId, states, events, c, i);
    } else {
      StepAgrees(lockId, s, e, c);
    }
  }

  lemma CommitSpoilsExactly(lockId: Cell -> LockId, states: seq<State>, events: seq<Event>, c: Cell, i: nat)
    requires IsRun(lockId, states, events) && i < |events| && events[i].Commit? && Agrees(states[i], c)
    requires states[i].txns[events[i].id].cell == c && states[i].txns[events[i].id].phase.Written?
    ensures if Torn(states, events, i, c) then !Atomic(states[i + 1].log, c) else Agrees(states[i + 1], c)
  {
    var s, id := states[i], events[i].id;
    RunsTrack(lockId, states, events, c, i);
    assert Found(s.txns[id]) && PastSelect(s.txns[id]);
    var p :| 0 <= p < i && events[p] == Select(id);
    assert Tracked(states, events, p, i, c);
    if Torn(states, events, i, c) {
      var q :| 0 <= q < i && events[q] == Select(id) && Drift(states, events, q, i, c) != s.txns[id].expected;
      assert Tracked(states, events, q, i, c);
      StaleCommitIsNotAtomic(lockId, s, id);
    } else {
      StepAgrees(lockId, s, events[i], c);
    }
  }

  function Last(states: seq<State>): State
    requires states != []
  {
    states[|states| - 1]
  }

  lemma Grow(lockId: Cell -> LockId, states: seq<State>, events: seq<Event>, e: Event)
    returns (states': seq<State>, events': seq<Event>)
    requires IsRun(lockId, states, events) && Enabled(lockId, Last(states), e)
    ensures IsRun(lockId, states', events') && Last(states') == After(lockId, Last(states), e)
    ensures states <= states' && events' == events + [e]
  {
    states', events' := states + [After(lockId, Last(states), e)], events + [e];
    forall i | 0 <= i < |events'|
      ensures Enabled(lockId, states'[i], events'[i]) && states'[i + 1] == After(lockId, states'[i], events'[i])
    {
      if i < |events| {
        assert states'[i] == states[i] && states'[i + 1] == states[i + 1] && events'[i] == events[i];
      }
    }
  }

  predicate Succeeds(e: Entry, c: Cell) {
    e.CasEntry? && e.cell == c && e.returned == e.expected
  }

  predicate Changes(e: Entry, c: Cell) {
    Succeeds(e, c) || (e.StoreEntry? && e.cell == c)
  }

  lemma {:induction false} QuietKeepsValue(log: seq<Entry>, c: Cell, i: nat, j: nat)
    requires Atomic(log, c) && i <= j <= |log|
    requires forall k :: i <= k < j ==> !Changes(log[k], c)
    ensures ValueAfter(log[..j], c) == ValueAfter(log[..i], c)
    decreases j
  {
    if i < j {
      QuietKeepsValue(log, c, i, j - 1);
      assert Answered(log, j - 1, c);
      assert log[..j][..j - 1] == log[..j - 1] && log[..j][j - 1] == log[j - 1];
    }
  }

  /** Successful swaps of a cell form a chain: each expects what the one before it wrote. */
  lemma SuccessesChain(log: seq<Entry>, c: Cell, i: nat, j: nat)
    requires Atomic(log, c) && i < j < |log| && Succeeds(log[i], c) && Succeeds(log[j], c)
    requires forall k :: i < k < j ==> !Changes(log[k], c)
    ensures log[j].expected == log[i].value
  {
    QuietKeepsValue(log, c, i + 1, j);
    assert Answered(log, i, c) && Answered(log, j, c);
    assert log[..i + 1][..i] == log[..i];
  }

  /** The first successful swap of a cell that was never stored expects zero. */
  lemma ChainStartsAtZero(log: seq<Entry>, c: Cell, j: nat)
    requires Atomic(log, c) && j < |log| && Succeeds(log[j], c)
    requires forall k :: 0 <= k < j ==> !Changes(log[k], c)
    ensures log[j].expected == ZERO
  {
    QuietKeepsValue(log, c, 0, j);
    assert Answered(log, j, c);
  }
}
