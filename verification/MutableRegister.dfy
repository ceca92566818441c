/** Whether the replies about a cell are those of an atomic register: every swap may take effect anywhere between its
    select and its commit, and everything else takes effect at its statement. */
module MutableRegister {
  import opened MutableStore
  import opened MutableProtocol

  // ---------------------------------------------------------------------------
  // Placements
  // ---------------------------------------------------------------------------

  /** The event is one about `c` that is replied to or takes effect. */
  predicate Logs(s: State, e: Event, c: Cell) {
    Logged(s, e) != [] && Logged(s, e)[0].cell == c
  }

  function EntryOf(s: State, e: Event, c: Cell): Entry {
    if Logs(s, e, c) then Logged(s, e)[0] else LoadEntry(c, ZERO)
  }

  predicate InRange(events: seq<Event>, order: seq<nat>) {
    forall k :: 0 <= k < |order| ==> order[k] < |events|
  }

  /** What is replied when the events take effect in this order. */
  ghost function Replies(states: seq<State>, events: seq<Event>, order: seq<nat>, c: Cell): seq<Entry>
    requires |states| == |events| + 1 && InRange(events, order)
  {
    seq(|order|, k requires 0 <= k < |order| => EntryOf(states[order[k]], events[order[k]], c))
  }

  /** Event `y` has taken effect before the operation of event `x` can: before its select, if `x` commits a swap. */
  ghost predicate Precedes(events: seq<Event>, y: nat, x: nat)
    requires x < |events|
  {
    if events[x].Commit? then exists p: nat :: p < x && events[p] == Select(events[x].id) && y < p else y < x
  }

  /** An order of all events about `c` before `n` that keeps each swap between its select and its commit, and the others
      where they are. */
  ghost predicate Placement(states: seq<State>, events: seq<Event>, n: nat, c: Cell, order: seq<nat>)
    requires |states| == |events| + 1 && n <= |events|
  {
    && InRange(events, order)
    && (forall i: nat :: i in order <==> i < n && Logs(states[i], events[i], c))
    && forall x, y :: 0 <= x < y < |order| ==> order[x] != order[y] && !Precedes(events, order[y], order[x])
  }

  /** In that order a register gives all the replies, and ends at the value in the table. */
  ghost predicate Explains(states: seq<State>, events: seq<Event>, n: nat, c: Cell, order: seq<nat>)
    requires |states| == |events| + 1 && n <= |events|
  {
    && Placement(states, events, n, c, order)
    && Atomic(Replies(states, events, order, c), c)
    && ValueAfter(Replies(states, events, order, c), c) == SpecValue(states[n].table, c)
  }

  ghost predicate Explained(states: seq<State>, events: seq<Event>, n: nat, c: Cell)
    requires |states| == |events| + 1 && n <= |events|
  {
    exists order :: Explains(states, events, n, c, order)
  }

  predicate CommitsSwap(s: State, e: Event, c: Cell) {
    e.Commit? && IsCas(s, e.id) && s.txns[e.id].cell == c && s.txns[e.id].phase.Written?
  }

  /** Event `i` commits a swap of `c` over a value that a plain store has put there since its select, and that is
      neither what the swap expects nor what it writes. */
  ghost predicate Overwrites(states: seq<State>, events: seq<Event>, i: nat, c: Cell)
    requires i < |events| && |states| == |events| + 1
  {
    && CommitsSwap(states[i], events[i], c)
    && var t := states[i].txns[events[i].id];
       exists p :: 0 <= p < i && events[p] == Select(events[i].id)
         && Drift(states, events, p, i, c) != t.expected && Drift(states, events, p, i, c) != t.value
  }

  // ---------------------------------------------------------------------------
  // The window between a select and its commit
  // ---------------------------------------------------------------------------

  predicate Ended(t: Txn) {
    t.CasTxn? && (t.phase.Committed? || t.phase.Aborted?)
  }

  lemma {:induction false} EndedStays(lockId: Cell -> LockId, states: seq<State>, events: seq<Event>, id: TxnId,
                                      j: nat, i: nat)
    requires IsRun(lockId, states, events) && j <= i < |states| && id < |states[j].txns| && Ended(states[j].txns[id])
    ensures id < |states[i].txns| && Ended(states[i].txns[id])
    decreases i
  {
    if j < i {
      EndedStays(lockId, states, events, id, j, i - 1);
    }
  }

  /** Transaction `id` selected `c` at `p` and has still not ended at `i`. */
  ghost predicate Window(states: seq<State>, events: seq<Event>, p: nat, i: nat, id: TxnId, c: Cell) {
    && p < i < |states| && p < |events| && events[p] == Select(id)
    && IsCas(states[i], id) && states[i].txns[id].cell == c && PastSelect(states[i].txns[id])
  }

  lemma {:induction false} CellStays(lockId: Cell -> LockId, states: seq<State>, events: seq<Event>, id: TxnId,
                                     j: nat, i: nat)
    requires IsRun(lockId, states, events) && j <= i < |states| && IsCas(states[j], id)
    ensures IsCas(states[i], id) && states[i].txns[id].cell == states[j].txns[id].cell
    decreases i
  {
    if j < i {
      CellStays(lockId, states, events, id, j, i - 1);
    }
  }

  /** All through the window it holds the lock of the cell, so that no swap of the cell commits. */
  lemma InWindow(lockId: Cell -> LockId, states: seq<State>, events: seq<Event>, p: nat, j: nat, i: nat, id: TxnId,
                 c: Cell)
    requires IsRun(lockId, states, events) && Window(states, events, p, i, id, c) && p < j <= i
    ensures Window(states, events, p, j, id, c)
    ensures SpecValue(states[j].table, c) == Drift(states, events, p, j, c)
    ensures j < i ==> !CommitsSwap(states[j], events[j], c)
  {
    RunsTrack(lockId, states, events, c, j);
    assert Tracked(states, events, p, j, c);
    CellStays(lockId, states, events, id, j, i);
    if Ended(states[j].txns[id]) {
      EndedStays(lockId, states, events, id, j, i);
    }
    if j < i && CommitsSwap(states[j], events[j], c) {
      assert states[j].locks[lockId(c)] == id && events[j].id == id;
      EndedStays(lockId, states, events, id, j + 1, i);
    }
  }

  lemma SelectOnce(lockId: Cell -> LockId, states: seq<State>, events: seq<Event>, p: nat, q: nat, c: Cell)
    requires IsRun(lockId, states, events) && p <= q < |events| && events[p].Select? && events[q] == events[p]
    ensures p == q
  {
    RunsTrack(lockId, states, events, c, q);
    assert p < q ==> Tracked(states, events, p, q, c);
  }

  /** So a swap that commits has one select. */
  lemma SelectsAgree(lockId: Cell -> LockId, states: seq<State>, events: seq<Event>, p: nat, n: nat, c: Cell)
    requires IsRun(lockId, states, events) && p < n < |events| && events[n].Commit? && events[p] == Select(events[n].id)
    ensures forall q: nat :: q < n && events[q] == Select(events[n].id) ==> q == p
  {
    forall q: nat | q < n && events[q] == Select(events[n].id)
      ensures q == p
    {
      if p <= q {
        SelectOnce(lockId, states, events, p, q, c);
      } else {
        SelectOnce(lockId, states, events, q, p, c);
      }
    }
  }

  /** What else happens to the cell in the window is a load, a comparison that fails, or a plain store. */
  lemma WindowEntry(lockId: Cell -> LockId, states: seq<State>, events: seq<Event>, p: nat, j: nat, i: nat, id: TxnId,
                    c: Cell)
    requires IsRun(lockId, states, events) && Window(states, events, p, i, id, c) && p < j < i
    ensures Changes(EntryOf(states[j], events[j], c), c) ==> StoresTo(states[j], events[j], c)
  {
    InWindow(lockId, states, events, p, j, i, id, c);
  }

  /** A commit of a swap closes a window. */
  lemma CommitsWindow(lockId: Cell -> LockId, states: seq<State>, events: seq<Event>, i: nat, c: Cell) returns (p: nat)
    requires IsRun(lockId, states, events) && i < |events| && CommitsSwap(states[i], events[i], c)
    ensures p < i && Window(states, events, p, i, events[i].id, c)
    ensures SpecValue(states[p].table, c) == states[i].txns[events[i].id].expected ==
        states[i].txns[events[i].id].phase.current
    ensures SpecValue(states[i].table, c) == Drift(states, events, p, i, c)
    ensures forall q :: 0 <= q < i && events[q] == Select(events[i].id) ==> q == p
  {
    var id := events[i].id;
    RunsTrack(lockId, states, events, c, i);
    assert Found(states[i].txns[id]) && PastSelect(states[i].txns[id]);
    p :| 0 <= p < i && events[p] == Select(id);
    assert Tracked(states, events, p, i, c);
    SelectsAgree(lockId, states, events, p, i, c);
  }

  // ---------------------------------------------------------------------------
  // An overwritten store cannot be explained
  // ---------------------------------------------------------------------------

  lemma {:induction false} LastStore(states: seq<State>, events: seq<Event>, p: nat, i: nat, c: Cell) returns (f: nat)
    requires |states| == |events| + 1 && p <= i <= |events|
    requires Drift(states, events, p, i, c) != SpecValue(states[p].table, c)
    ensures p <= f < i && StoresTo(states[f], events[f], c)
    ensures states[f].txns[events[f].id].value == Drift(states, events, p, i, c)
    ensures forall j :: f < j < i ==> !StoresTo(states[j], events[j], c)
    decreases i
  {
    if StoresTo(states[i - 1], events[i - 1], c) {
      f := i - 1;
    } else {
      f := LastStore(states, events, p, i - 1, c);
    }
  }

  lemma StoreApplies(log: seq<Entry>, k: nat, c: Cell)
    requires k < |log| && log[k].StoreEntry? && log[k].cell == c
    ensures ValueAfter(log[..k + 1], c) == log[k].value
  {
    assert log[..k + 1][..k] == log[..k] && log[..k + 1][k] == log[k];
  }

  lemma SwapStandsOnce(states: seq<State>, events: seq<Event>, n: nat, c: Cell, order: seq<nat>, x: nat, k: nat)
    requires |states| == |events| + 1 && n <= |events| && Placement(states, events, n, c, order)
    requires x < |order| && k < |order| && x != k
    ensures order[x] != order[k]
  {
    if x < k {
      assert !Precedes(events, order[k], order[x]);
    } else {
      assert !Precedes(events, order[x], order[k]);
    }
  }

  /** In any placement, what comes after the last store of the window changes nothing but for the swap itself. */
  lemma AfterLastStore(lockId: Cell -> LockId, states: seq<State>, events: seq<Event>, p: nat, f: nat, i: nat,
                       c: Cell, order: seq<nat>, y: nat, x: nat, k: nat)
    requires IsRun(lockId, states, events) && i < |events| && events[i].Commit?
    requires Window(states, events, p, i, events[i].id, c) && p < f < i && StoresTo(states[f], events[f], c)
    requires forall j :: f < j < i ==> !StoresTo(states[j], events[j], c)
    requires Placement(states, events, i + 1, c, order) && y < k < |order| && x < |order| && x != k
    requires order[y] == f && order[x] == i
    ensures !Changes(Replies(states, events, order, c)[k], c)
  {
    assert !Precedes(events, order[k], order[y]) && order[k] in order;
    SwapStandsOnce(states, events, i + 1, c, order, x, k);
    WindowEntry(lockId, states, events, p, order[k], i, events[i].id, c);
  }

  /** If a register gives the reply of a swap that is not what the last store wrote, the swap comes before that store,
      whose value then stays. */
  lemma LastStoreStays(log: seq<Entry>, x: nat, y: nat, c: Cell)
    requires Atomic(log, c) && x < |log| && y < |log| && x != y
    requires log[y].StoreEntry? && log[y].cell == c && log[x].CasEntry? && log[x].cell == c
    requires log[x].returned != log[y].value
    requires forall k :: y < k < |log| && k != x ==> !Changes(log[k], c)
    ensures ValueAfter(log, c) == log[y].value
  {
    StoreApplies(log, y, c);
    assert Answered(log, x, c);
    if x < y {
      QuietKeepsValue(log, c, y + 1, |log|);
      assert log[..|log|] == log;
    } else {
      QuietKeepsValue(log, c, y + 1, x);
    }
  }

  lemma LastStoreWins(lockId: Cell -> LockId, states: seq<State>, events: seq<Event>, p: nat, f: nat, i: nat, c: Cell,
                      order: seq<nat>)
    requires IsRun(lockId, states, events) && i < |events| && CommitsSwap(states[i], events[i], c)
    requires Window(states, events, p, i, events[i].id, c) && p < f < i && StoresTo(states[f], events[f], c)
    requires forall j :: f < j < i ==> !StoresTo(states[j], events[j], c)
    requires states[i].txns[events[i].id].phase.current != states[f].txns[events[f].id].value
    requires Placement(states, events, i + 1, c, order) && Atomic(Replies(states, events, order, c), c)
    ensures ValueAfter(Replies(states, events, order, c), c) == states[f].txns[events[f].id].value
  {
    assert Logs(states[f], events[f], c) && Logs(states[i], events[i], c);
    var y :| 0 <= y < |order| && order[y] == f;
    var x :| 0 <= x < |order| && order[x] == i;
    forall k | y < k < |order| && k != x
      ensures !Changes(Replies(states, events, order, c)[k], c)
    {
      AfterLastStore(lockId, states, events, p, f, i, c, order, y, x, k);
    }
    LastStoreStays(Replies(states, events, order, c), x, y, c);
  }

  lemma OverwrittenIsUnexplained(lockId: Cell -> LockId, states: seq<State>, events: seq<Event>, i: nat, c: Cell,
                                 order: seq<nat>)
    requires IsRun(lockId, states, events) && i < |events| && Overwrites(states, events, i, c)
    ensures !Explains(states, events, i + 1, c, order)
  {
    var p := CommitsWindow(lockId, states, events, i, c);
    var f := LastStore(states, events, p, i, c);
    TableStep(lockId, states[i], events[i], c);
    if Placement(states, events, i + 1, c, order) && Atomic(Replies(states, events, order, c), c) {
      LastStoreWins(lockId, states, events, p, f, i, c, order);
    }
  }

  // ---------------------------------------------------------------------------
  // Everything else can
  // ---------------------------------------------------------------------------

  lemma LastOfAtomic(log: seq<Entry>, z: Entry, c: Cell)
    ensures ValueAfter(log + [z], c) == Applied(ValueAfter(log, c), z, c)
    ensures Atomic(log + [z], c) ==> Atomic(log, c)
    ensures Atomic(log + [z], c) && z.cell == c && !z.StoreEntry? ==> z.returned == ValueAfter(log, c)
  {
    assert (log + [z])[..|log|] == log;
    if Atomic(log + [z], c) {
      AtomicShrinks(log, log + [z], c);
      assert Answered(log + [z], |log|, c);
    }
  }

  /** A swap may as well take effect just before a store that follows its select. */
  lemma {:induction false} InsertBeforeStore(log: seq<Entry>, cas: Entry, rest: seq<Entry>, c: Cell)
    requires Atomic(log + rest, c) && rest != [] && rest[0].StoreEntry? && rest[0].cell == c
    requires cas.CasEntry? && cas.cell == c && cas.returned == ValueAfter(log, c)
    ensures Atomic(log + [cas] + rest, c) && ValueAfter(log + [cas] + rest, c) == ValueAfter(log + rest, c)
    decreases |rest|
  {
    var n := |rest| - 1;
    var most, z := rest[..n], rest[n];
    var plain, swapped := log + most, log + [cas] + most;
    assert log + rest == plain + [z] && log + [cas] + rest == swapped + [z];
    LastOfAtomic(plain, z, c);
    LastOfAtomic(swapped, z, c);
    if n == 0 {
      assert plain == log && swapped == log + [cas];
      AtomicGrows(log, cas, c);
    } else {
      InsertBeforeStore(log, cas, most, c);
    }
    AtomicGrows(swapped, z, c);
  }

  lemma {:induction false} FirstStore(states: seq<State>, events: seq<Event>, p: nat, i: nat, c: Cell) returns (f: nat)
    requires |states| == |events| + 1 && p <= i <= |events|
    requires Drift(states, events, p, i, c) != SpecValue(states[p].table, c)
    ensures p <= f < i && StoresTo(states[f], events[f], c)
    ensures Drift(states, events, p, f, c) == SpecValue(states[p].table, c)
    decreases i
  {
    if Drift(states, events, p, i - 1, c) != SpecValue(states[p].table, c) {
      f := FirstStore(states, events, p, i - 1, c);
    } else {
      f := i - 1;
    }
  }

  /** No swap of `c` commits between `f` and `m`. */
  ghost predicate NoSwap(states: seq<State>, events: seq<Event>, f: nat, m: nat, c: Cell)
    requires |states| == |events| + 1 && m <= |events|
  {
    forall j :: f <= j < m ==> !CommitsSwap(states[j], events[j], c)
  }

  /** An explanation of each beginning of the run, each going on from the one before as long as no swap commits. */
  ghost predicate Explanations(states: seq<State>, events: seq<Event>, n: nat, c: Cell, orders: seq<seq<nat>>)
    requires |states| == |events| + 1 && n <= |events|
  {
    && |orders| == n + 1
    && (forall m :: 0 <= m <= n ==> Explains(states, events, m, c, orders[m]))
    && (forall f, m :: 0 <= f <= m <= n && NoSwap(states, events, f, m, c) ==> orders[f] <= orders[m])
  }

  lemma RepliesJoin(states: seq<State>, events: seq<Event>, a: seq<nat>, b: seq<nat>, c: Cell)
    requires |states| == |events| + 1 && InRange(events, a) && InRange(events, b)
    ensures InRange(events, a + b)
    ensures Replies(states, events, a + b, c) == Replies(states, events, a, c) + Replies(states, events, b, c)
  {
  }

  /** An event that is not about `c` needs no place. */
  lemma NothingToPlace(lockId: Cell -> LockId, states: seq<State>, events: seq<Event>, n: nat, c: Cell, order: seq<nat>)
    requires IsRun(lockId, states, events) && n < |events| && Explains(states, events, n, c, order)
    requires !Logs(states[n], events[n], c)
    ensures Explains(states, events, n + 1, c, order)
  {
    TableStep(lockId, states[n], events[n], c);
  }

  lemma PlaceLast(states: seq<State>, events: seq<Event>, n: nat, c: Cell, order: seq<nat>)
    requires |states| == |events| + 1 && n < |events| && Placement(states, events, n, c, order)
    requires Logs(states[n], events[n], c)
    ensures Placement(states, events, n + 1, c, order + [n])
  {
    var grown := order + [n];
    forall x, y | 0 <= x < y < |grown|
      ensures grown[x] != grown[y] && !Precedes(events, grown[y], grown[x])
    {
      assert order[x] in order;
      if y < |order| {
        assert !Precedes(events, order[y], order[x]);
      }
    }
  }

  /** Other events, and a swap whose value is still there, are placed last. */
  lemma PlacedLast(lockId: Cell -> LockId, states: seq<State>, events: seq<Event>, n: nat, c: Cell, order: seq<nat>)
    requires IsRun(lockId, states, events) && n < |events| && Explains(states, events, n, c, order)
    requires Logs(states[n], events[n], c) && CommitsFresh(states[n], events[n], c)
    ensures Explains(states, events, n + 1, c, order + [n])
  {
    PlaceLast(states, events, n, c, order);
    ValueStep(lockId, states[n], events[n], c);
    RepliesJoin(states, events, order, [n], c);
    var log, entry := Replies(states, events, order, c), EntryOf(states[n], events[n], c);
    assert Replies(states, events, [n], c) == [entry];
    AtomicGrows(log, entry, c);
    assert (log + [entry])[..|log|] == log;
  }

  /** A swap that a store of its own value has overtaken is placed before an earlier store of the window. */
  lemma PlaceAt(lockId: Cell -> LockId, states: seq<State>, events: seq<Event>, n: nat, c: Cell, early: seq<nat>,
                late: seq<nat>, p: nat, f: nat)
    requires IsRun(lockId, states, events) && p < f <= n < |events| && events[n].Commit?
    requires events[p] == Select(events[n].id)
    requires Placement(states, events, f, c, early) && Placement(states, events, n, c, early + late)
    requires Logs(states[n], events[n], c)
    ensures Placement(states, events, n + 1, c, early + [n] + late)
  {
    var whole, grown := early + late, early + [n] + late;
    SelectsAgree(lockId, states, events, p, n, c);
    forall x, y | 0 <= x < y < |grown|
      ensures grown[x] < |events| && grown[x] != grown[y] && !Precedes(events, grown[y], grown[x])
    {
      PairInPlace(states, events, n, c, early, late, p, f, x, y);
    }
    forall i: nat
      ensures i in grown <==> i < n + 1 && Logs(states[i], events[i], c)
    {
      assert i in grown <==> i in whole || i == n;
    }
    assert forall k :: 0 <= k < |grown| ==> grown[k] in grown;
  }

  lemma PairInPlace(states: seq<State>, events: seq<Event>, n: nat, c: Cell, early: seq<nat>, late: seq<nat>, p: nat,
                    f: nat, x: nat, y: nat)
    requires |states| == |events| + 1 && p < f <= n < |events| && events[n].Commit?
    requires forall q: nat :: q < n && events[q] == Select(events[n].id) ==> q == p
    requires Placement(states, events, f, c, early) && Placement(states, events, n, c, early + late)
    requires x < y < |early| + 1 + |late|
    ensures
      var grown := early + [n] + late;
      grown[x] < |events| && grown[x] != grown[y] && !Precedes(events, grown[y], grown[x])
  {
    var whole, k := early + late, |early|;
    if x == k {
      LateIsLate(states, events, f, n, c, early, late, y - k - 1);
    } else {
      var x' := if x < k then x else x - 1;
      assert (early + [n] + late)[x] == whole[x'] && whole[x'] in whole;
      if y != k {
        var y' := if y < k then y else y - 1;
        assert (early + [n] + late)[y] == whole[y'] && x' < y';
        assert !Precedes(events, whole[y'], whole[x']);
      }
    }
  }

  /** What comes later in the placement than all before `f` is from `f` on. */
  lemma LateIsLate(states: seq<State>, events: seq<Event>, f: nat, n: nat, c: Cell, early: seq<nat>, late: seq<nat>,
                   k: nat)
    requires |states| == |events| + 1 && f <= n <= |events| && k < |late|
    requires Placement(states, events, f, c, early) && Placement(states, events, n, c, early + late)
    ensures f <= late[k] < n
  {
    var whole := early + late;
    assert whole[|early| + k] == late[k] && late[k] in whole;
    forall x | 0 <= x < |early|
      ensures early[x] != late[k]
    {
      SwapStandsOnce(states, events, n, c, whole, x, |early| + k);
    }
  }

  /** The explanation of the run before the swap, with the swap put in at `f`, explains the run with the swap. */
  lemma PlacedAt(lockId: Cell -> LockId, states: seq<State>, events: seq<Event>, n: nat, c: Cell, early: seq<nat>,
                 late: seq<nat>, p: nat, f: nat)
    requires IsRun(lockId, states, events) && p < f < n < |events| && CommitsSwap(states[n], events[n], c)
    requires Window(states, events, p, n, events[n].id, c) && Logs(states[n], events[n], c)
    requires Explains(states, events, f, c, early) && Explains(states, events, n, c, early + late)
    requires late != [] && late[0] == f && StoresTo(states[f], events[f], c)
    requires SpecValue(states[f].table, c) == states[n].txns[events[n].id].phase.current
    requires SpecValue(states[n].table, c) == states[n].txns[events[n].id].value
    ensures Explains(states, events, n + 1, c, early + [n] + late)
  {
    assert InRange(events, late) by {
      assert forall k :: 0 <= k < |late| ==> (early + late)[|early| + k] == late[k];
    }
    PlaceAt(lockId, states, events, n, c, early, late, p, f);
    TableStep(lockId, states[n], events[n], c);
    RepliesJoin(states, events, early, late, c);
    RepliesJoin(states, events, early, [n], c);
    RepliesJoin(states, events, early + [n], late, c);
    var cas := EntryOf(states[n], events[n], c);
    assert Replies(states, events, [n], c) == [cas];
    InsertBeforeStore(Replies(states, events, early, c), cas, Replies(states, events, late, c), c);
  }

  /** The next event after the window's beginning that is about `c` comes next in the placement. */
  lemma StoreComesNext(states: seq<State>, events: seq<Event>, n: nat, f: nat, c: Cell, orders: seq<seq<nat>>)
    requires |states| == |events| + 1 && f < n <= |events| && Explanations(states, events, n, c, orders)
    requires NoSwap(states, events, f, n, c) && StoresTo(states[f], events[f], c)
    ensures orders[f] + orders[n][|orders[f]|..] == orders[n]
    ensures |orders[n]| > |orders[f]| && orders[n][|orders[f]|] == f
  {
    assert NoSwap(states, events, f, f + 1, c) && NoSwap(states, events, f + 1, n, c);
    assert orders[f] <= orders[f + 1] <= orders[n] && orders[f] <= orders[n];
    assert Explains(states, events, f, c, orders[f]) && Explains(states, events, f + 1, c, orders[f + 1]);
    var late := orders[f + 1][|orders[f]|..];
    assert orders[f] + late == orders[f + 1];
    OneComesNext(states, events, f, c, orders[f], late);
    assert orders[f + 1][|orders[f]|] == f;
  }

  lemma OneComesNext(states: seq<State>, events: seq<Event>, f: nat, c: Cell, early: seq<nat>, late: seq<nat>)
    requires |states| == |events| + 1 && f < |events| && StoresTo(states[f], events[f], c)
    requires Placement(states, events, f, c, early) && Placement(states, events, f + 1, c, early + late)
    ensures late != [] && late[0] == f
  {
    assert Logs(states[f], events[f], c);
    assert f in early + late && f !in early;
    LateIsLate(states, events, f, f + 1, c, early, late, 0);
  }

  lemma {:induction false} AllExplained(lockId: Cell -> LockId, states: seq<State>, events: seq<Event>, n: nat, c: Cell)
    returns (orders: seq<seq<nat>>)
    requires IsRun(lockId, states, events) && n <= |events|
    requires forall i :: 0 <= i < n ==> !Overwrites(states, events, i, c)
    ensures Explanations(states, events, n, c, orders)
  {
    if n == 0 {
      orders := [[]];
    } else {
      var before := AllExplained(lockId, states, events, n - 1, c);
      var order := NextExplained(lockId, states, events, n - 1, c, before);
      orders := before + [order];
      MoreExplanations(states, events, n, c, before, order);
    }
  }

  lemma NextExplained(lockId: Cell -> LockId, states: seq<State>, events: seq<Event>, n: nat, c: Cell,
                      orders: seq<seq<nat>>)
    returns (order: seq<nat>)
    requires IsRun(lockId, states, events) && n < |events| && !Overwrites(states, events, n, c)
    requires Explanations(states, events, n, c, orders)
    ensures Explains(states, events, n + 1, c, order)
    ensures !CommitsSwap(states[n], events[n], c) ==> orders[n] <= order
  {
    assert Explains(states, events, n, c, orders[n]);
    if !Logs(states[n], events[n], c) {
      order := orders[n];
      NothingToPlace(lockId, states, events, n, c, order);
    } else if CommitsFresh(states[n], events[n], c) {
      order := orders[n] + [n];
      PlacedLast(lockId, states, events, n, c, orders[n]);
    } else {
      order := StaleExplained(lockId, states, events, n, c, orders);
    }
  }

  lemma StaleExplained(lockId: Cell -> LockId, states: seq<State>, events: seq<Event>, n: nat, c: Cell,
                       orders: seq<seq<nat>>)
    returns (order: seq<nat>)
    requires IsRun(lockId, states, events) && n < |events| && !Overwrites(states, events, n, c)
    requires Explanations(states, events, n, c, orders) && Logs(states[n], events[n], c)
    requires CommitsSwap(states[n], events[n], c) && !CommitsFresh(states[n], events[n], c)
    ensures Explains(states, events, n + 1, c, order)
  {
    var p := CommitsWindow(lockId, states, events, n, c);
    var f := FirstStore(states, events, p, n, c);
    forall j | f <= j < n
      ensures !CommitsSwap(states[j], events[j], c)
    {
      InWindow(lockId, states, events, p, j, n, events[n].id, c);
    }
    InWindow(lockId, states, events, p, f, n, events[n].id, c);
    StoreComesNext(states, events, n, f, c, orders);
    var late := orders[n][|orders[f]|..];
    PlacedAt(lockId, states, events, n, c, orders[f], late, p, f);
    order := orders[f] + [n] + late;
  }

  lemma MoreExplanations(states: seq<State>, events: seq<Event>, n: nat, c: Cell, before: seq<seq<nat>>,
                         order: seq<nat>)
    requires |states| == |events| + 1 && 0 < n <= |events| && Explanations(states, events, n - 1, c, before)
    requires Explains(states, events, n, c, order)
    requires !CommitsSwap(states[n - 1], events[n - 1], c) ==> before[n - 1] <= order
    ensures Explanations(states, events, n, c, before + [order])
  {
    var orders := before + [order];
    forall f, m | 0 <= f <= m <= n && NoSwap(states, events, f, m, c)
      ensures orders[f] <= orders[m]
    {
      if f < m && m == n {
        assert NoSwap(states, events, f, n - 1, c);
        assert before[f] <= before[n - 1];
      }
    }
  }

  /** The exact condition, over every run and for any lock ids: at each point the replies about a cell and its value are
      those of an atomic register, each swap placed somewhere between its select and its commit, if and only if no swap
      overwrites a value that a plain store has put there in between. */
  lemma RegisterExactly(lockId: Cell -> LockId, states: seq<State>, events: seq<Event>, n: nat, c: Cell)
    requires IsRun(lockId, states, events) && n <= |events|
    ensures (forall m :: 0 <= m <= n ==> Explained(states, events, m, c)) <==>
            forall i :: 0 <= i < n ==> !Overwrites(states, events, i, c)
  {
    if i :| 0 <= i < n && Overwrites(states, events, i, c) {
      var m := i + 1;
      if order :| Explains(states, events, m, c, order) {
        OverwrittenIsUnexplained(lockId, states, events, i, c, order);
      }
      assert !Explained(states, events, m, c);
    } else {
      var orders := AllExplained(lockId, states, events, n, c);
      forall m | 0 <= m <= n
        ensures Explained(states, events, m, c)
      {
        assert Explains(states, events, m, c, orders[m]);
      }
    }
  }

  // ---------------------------------------------------------------------------
  // A store that is lost
  // ---------------------------------------------------------------------------

  /** A run in which a store falls between the select and the upsert of a swap from zero to another value: both report
      success, and the stored value is gone, which no placement of the swap explains. */
  lemma StoreCanBeLost(lockId: Cell -> LockId, c: Cell, swapped: Hash, stored: Hash)
    returns (states: seq<State>, events: seq<Event>)
    requires stored != ZERO && stored != swapped
    ensures IsRun(lockId, states, events)
    ensures
      var s := Last(states);
      && s.log == [StoreEntry(c, stored), CasEntry(c, ZERO, swapped, ZERO)]
      && s.table == map[c := swapped]
    ensures !Explained(states, events, |events|, c)
  {
    var cas, store := CasTxn(c, ZERO, swapped, Requesting), StoreTxn(c, stored, false);
    states, events := [State(map[], map[], [], [])], [];
    states, events := Grow(lockId, states, events, Start(cas));
    states, events := Grow(lockId, states, events, Start(store));
    assert Last(states) == State(map[], map[], [cas, store], []);
    states, events := Grow(lockId, states, events, Acquire(0));
    assert Last(states).txns == [cas.(phase := Locked), store];
    states, events := StoreOvertakesSwap(lockId, states, events, cas, store);
    assert Overwrites(states, events, |events| - 1, c);
    var n := |events|;
    if order :| Explains(states, events, n, c, order) {
      OverwrittenIsUnexplained(lockId, states, events, |events| - 1, c, order);
    }
  }

  /** From the select on. */
  lemma StoreOvertakesSwap(lockId: Cell -> LockId, states: seq<State>, events: seq<Event>, cas: Txn, store: Txn)
    returns (states': seq<State>, events': seq<Event>)
    requires IsRun(lockId, states, events) && cas.CasTxn? && store.StoreTxn? && store.cell == cas.cell
    requires cas.expected == ZERO != store.value && !store.done && store.value != cas.value
    requires Last(states) == State(map[], map[lockId(cas.cell) := 0], [cas.(phase := Locked), store], [])
    ensures IsRun(lockId, states', events') && |events'| > 0 && Overwrites(states', events', |events'| - 1, cas.cell)
    ensures
      var s := Last(states');
      && s.log == [StoreEntry(cas.cell, store.value), CasEntry(cas.cell, ZERO, cas.value, ZERO)]
      && s.table == map[cas.cell := cas.value]
  {
    states', events' := Grow(lockId, states, events, Select(0));
    assert Last(states').txns == [cas.(phase := Read(ZERO)), store];
    states', events' := Grow(lockId, states', events', DoStore(1));
    assert Last(states').txns == [cas.(phase := Read(ZERO)), store.(done := true)];
    states', events' := Grow(lockId, states', events', Upsert(0));
    assert Last(states').txns == [cas.(phase := Written(ZERO)), store.(done := true)];
    states', events' := Grow(lockId, states', events', Commit(0));
    OverwritesExactly(lockId, states', events', |events'| - 1, cas.cell);
  }

  /** What a swap overwrites can be told from the table just before its commit. */
  lemma OverwritesExactly(lockId: Cell -> LockId, states: seq<State>, events: seq<Event>, i: nat, c: Cell)
    requires IsRun(lockId, states, events) && i < |events|
    ensures Overwrites(states, events, i, c) <==>
            && CommitsSwap(states[i], events[i], c)
            && var t := states[i].txns[events[i].id];
               SpecValue(states[i].table, c) !in {t.expected, t.value}
  {
    if CommitsSwap(states[i], events[i], c) {
      var p := CommitsWindow(lockId, states, events, i, c);
    }
  }
}
