/** When two routes meet at a live hash, an obliterate can fail although nothing is missing: the run that makes it
    fail. */
module ImmutableCollisions {
  import opened Fragments
  import opened Snapshots
  import opened Purge
  import opened ImmutableProtocol
  import opened Routes
  import opened ImmutableTrees
  import opened ImmutableOutcomes

  // ---------------------------------------------------------------------------
  // A first meeting
  // ---------------------------------------------------------------------------

  function Prefix(r: Route, m: nat): Route
    requires m <= |r.turns| && |r.hashes| == |r.turns| + 1
  {
    Route(r.hashes[..m + 1], r.turns[..m])
  }

  lemma PrefixIsRoute(s: Snapshot, h: Hash, r: Route, m: nat)
    requires IsRoute(s, h, r) && m <= |r.turns|
    ensures IsRoute(s, h, Prefix(r, m)) && End(Prefix(r, m)) == r.hashes[m]
    ensures Simple(r) ==> Simple(Prefix(r, m))
    ensures m < |r.turns| ==> Prefix(r, m + 1) == Onto(Prefix(r, m), r.turns[m], r.hashes[m + 1])
    ensures Prefix(r, |r.turns|) == r
  {
    var b := Prefix(r, m);
    forall i | 0 <= i < |b.turns|
      ensures Turns(s, b.hashes[i], b.turns[i], b.hashes[i + 1])
    {
      assert Turns(s, r.hashes[i], r.turns[i], r.hashes[i + 1]);
    }
  }

  /** Up to `m` the routes are the same, and there they part. */
  ghost predicate PartAt(p: Route, q: Route, m: nat) {
    m < |p.turns| && m < |q.turns| && p.turns[..m] == q.turns[..m] && p.turns[m] != q.turns[m]
  }

  lemma {:induction false} SameSoFar(s: Snapshot, h: Hash, p: Route, q: Route, m: nat)
    requires IsRoute(s, h, p) && IsRoute(s, h, q) && m <= |p.turns| && m <= |q.turns| && p.turns[..m] == q.turns[..m]
    ensures Prefix(p, m) == Prefix(q, m)
  {
    if m > 0 {
      assert p.turns[..m][..m - 1] == p.turns[..m - 1] && q.turns[..m][..m - 1] == q.turns[..m - 1];
      SameSoFar(s, h, p, q, m - 1);
      assert p.turns[m - 1] == p.turns[..m][m - 1] == q.turns[m - 1];
      assert p.hashes[m - 1] == Prefix(p, m - 1).hashes[m - 1] == q.hashes[m - 1];
      assert Turns(s, p.hashes[m - 1], p.turns[m - 1], p.hashes[m]) &&
        Turns(s, q.hashes[m - 1], q.turns[m - 1], q.hashes[m]);
      assert p.hashes[..m + 1] == p.hashes[..m] + [p.hashes[m]] && q.hashes[..m + 1] == q.hashes[..m] + [q.hashes[m]];
    }
  }

  /** Neither of two routes that meet goes on from the other. */
  lemma {:induction false} Parting(s: Snapshot, h: Hash, p: Route, q: Route, m: nat) returns (at: nat)
    requires Meet(s, h, p, q) && m <= |p.turns| && m <= |q.turns| && p.turns[..m] == q.turns[..m]
    ensures PartAt(p, q, at)
    decreases |p.turns| - m
  {
    SameSoFar(s, h, p, q, m);
    PrefixIsRoute(s, h, p, m);
    PrefixIsRoute(s, h, q, m);
    assert p.hashes[m] == End(Prefix(p, m)) == q.hashes[m];
    assert End(p) == p.hashes[|p.turns|] && End(q) == q.hashes[|q.turns|];
    assert m < |p.turns| && m < |q.turns|;
    if p.turns[m] == q.turns[m] {
      assert p.turns[..m + 1] == p.turns[..m] + [p.turns[m]] && q.turns[..m + 1] == q.turns[..m] + [q.turns[m]];
      at := Parting(s, h, p, q, m + 1);
    } else {
      at := m;
    }
  }

  /** Past the parting the routes share only the hash they meet at. */
  ghost predicate FirstMeeting(p: Route, q: Route, m: nat)
    requires |p.hashes| == |p.turns| + 1 && |q.hashes| == |q.turns| + 1
  {
    && PartAt(p, q, m)
    && forall i, j :: m < i <= |p.turns| && m < j <= |q.turns| && p.hashes[i] == q.hashes[j] ==>
      i == |p.turns| && j == |q.turns|
  }

  lemma {:induction false} MeetFirst(s: Snapshot, h: Hash, p: Route, q: Route) returns (p': Route, q': Route, m: nat)
    requires Meet(s, h, p, q)
    ensures Meet(s, h, p', q') && FirstMeeting(p', q', m)
    decreases |p.turns| + |q.turns|
  {
    m := Parting(s, h, p, q, 0);
    if FirstMeeting(p, q, m) {
      p', q' := p, q;
    } else {
      var i, j :| m < i <= |p.turns| && m < j <= |q.turns| && p.hashes[i] == q.hashes[j] &&
        (i < |p.turns| || j < |q.turns|);
      PrefixIsRoute(s, h, p, i);
      PrefixIsRoute(s, h, q, j);
      assert i < |p.turns| ==> Turns(s, p.hashes[i], p.turns[i], p.hashes[i + 1]);
      assert j < |q.turns| ==> Turns(s, q.hashes[j], q.turns[j], q.hashes[j + 1]);
      assert Prefix(p, i).turns[m] == p.turns[m] && Prefix(q, j).turns[m] == q.turns[m];
      p', q', m := MeetFirst(s, h, Prefix(p, i), Prefix(q, j));
    }
  }

  // ---------------------------------------------------------------------------
  // Down a route
  // ---------------------------------------------------------------------------

  /** A run with the places of its tasks at the end. */
  datatype Course = Course(states: seq<State>, events: seq<Event>, places: seq<Place>)

  ghost predicate OnCourse(g: Origin, from: nat, c: Course) {
    Going(g, c.states, c.events, from, c.places)
  }

  function Now(c: Course): State
    requires c.states != []
  {
    Last(c.states)
  }

  predicate Continues(c: Course, d: Course) {
    c.states <= d.states && c.events <= d.events && c.places <= d.places
  }

  /** No task of `c` but `id` has moved, and those that have come since have not begun. */
  ghost predicate OnlyMoves(c: Course, d: Course, id: TaskId)
    requires c.states != [] && d.states != []
  {
    && Continues(c, d) && |Now(c).tasks| <= |Now(d).tasks|
    && forall j :: 0 <= j < |Now(c).tasks| && j != id ==> Now(d).tasks[j] == Now(c).tasks[j]
  }

  lemma Acts(g: Origin, from: nat, c: Course, id: TaskId) returns (d: Course)
    requires OnCourse(g, from, c) && g.root <= id < |Now(c).tasks|
    requires Now(c).tasks[id].ObliterateTask? && !Finished(Now(c).tasks[id]) && !Now(c).tasks[id].phase.Waiting?
    ensures OnCourse(g, from, d) && OnlyMoves(c, d, id) && d.places == c.places
    ensures
      var s, t := Now(c), Now(c).tasks[id];
      Now(d) == State(ObliterateStep(s.store, t).0, s.tasks[id := ObliterateStep(s.store, t).1])
  {
    var states, events, places := GoesOn(g, c.states, c.events, from, c.places, Advance(id));
    d := Course(states, events, places);
  }

  /** A task on a fresh fragmented row, up to where it waits. */
  lemma Opens(g: Origin, from: nat, c: Course, id: TaskId) returns (d: Course)
    requires OnCourse(g, from, c) && g.root <= id < |Now(c).tasks|
    requires Now(c).tasks[id].ObliterateTask? && Now(c).tasks[id].phase == Loading
    requires
      var x := Now(c).tasks[id].a.hash;
      Expands(g.store, x) && SizeOk(g.store.metadata[x]) && SameRow(g.store, Now(c).store, x)
    ensures OnCourse(g, from, d) && OnlyMoves(c, d, id) && d.places == c.places
    ensures
      var s, t := Now(c), Now(c).tasks[id];
      var x := t.a.hash;
      x in s.store.metadata
      && Now(d) == State(Mark(s.store, x),
        s.tasks[id := t.(phase := Waiting(g.store.metadata[x], References(g.store, x), []))])
  {
    var s, t := Now(c), Now(c).tasks[id];
    var x, f := t.a.hash, g.store.metadata[t.a.hash];
    FreshRow(g, s, c.places, x);
    d := Acts(g, from, c, id);
    assert Now(d) == State(s.store, s.tasks[id := t.(phase := Locking(f))]);
    d := Acts(g, from, d, id);
    assert Now(d) == State(Mark(s.store, x), s.tasks[id := t.(phase := Listing(f))]);
    d := Acts(g, from, d, id);
    assert PayloadAt(g.store, x).Some? && s.store.forceWrite == g.store.forceWrite;
  }

  /** From `c` to `d` the waiting task `id` has only spawned tasks, which have not begun. */
  ghost predicate OnlySpawns(c: Course, d: Course, id: TaskId)
    requires c.states != [] && d.states != [] && id < |Now(c).tasks| && IsWaiting(Now(c).tasks[id])
  {
    && OnlyMoves(c, d, id) && Now(d).store == Now(c).store
    && IsWaiting(Now(d).tasks[id]) && Now(d).tasks[id].a == Now(c).tasks[id].a
    && var early, all, n := Now(c).tasks[id].phase.children, Now(d).tasks[id].phase.children, |Now(c).tasks|;
       && early <= all
       && (forall k :: |early| <= k < |all| ==> n <= all[k] < |Now(d).tasks|)
       && (forall j :: n <= j < |Now(d).tasks| ==> Now(d).tasks[j].ObliterateTask? && Now(d).tasks[j].phase == Loading)
  }

  lemma SpawnsOne(g: Origin, from: nat, c: Course, id: TaskId) returns (d: Course)
    requires OnCourse(g, from, c) && g.root <= id < |Now(c).tasks| && IsWaiting(Now(c).tasks[id])
    requires Now(c).tasks[id].phase.unspawned != []
    ensures OnCourse(g, from, d) && OnlySpawns(c, d, id)
    ensures Now(d).tasks[id].phase.unspawned == Now(c).tasks[id].phase.unspawned[1..]
  {
    StepShape(g, Now(c), c.places, Spawn(id));
    var states, events, places := GoesOn(g, c.states, c.events, from, c.places, Spawn(id));
    d := Course(states, events, places);
  }

  lemma SpawnsOnlyThenOnly(c: Course, d: Course, e: Course, id: TaskId)
    requires c.states != [] && d.states != [] && e.states != [] && id < |Now(c).tasks| && IsWaiting(Now(c).tasks[id])
    requires OnlySpawns(c, d, id) && OnlySpawns(d, e, id)
    ensures OnlySpawns(c, e, id)
  {
    var n := |Now(c).tasks[id].phase.children|;
    forall k | n <= k < |Now(e).tasks[id].phase.children|
      ensures |Now(c).tasks| <= Now(e).tasks[id].phase.children[k] < |Now(e).tasks|
    {
      if k < |Now(d).tasks[id].phase.children| {
        assert Now(e).tasks[id].phase.children[k] == Now(d).tasks[id].phase.children[k];
      }
    }
  }

  /** All it refers to gets a task. */
  lemma {:induction false} SpawnsAll(g: Origin, from: nat, c: Course, id: TaskId) returns (d: Course)
    requires OnCourse(g, from, c) && g.root <= id < |Now(c).tasks| && IsWaiting(Now(c).tasks[id])
    ensures OnCourse(g, from, d) && OnlySpawns(c, d, id) && Now(d).tasks[id].phase.unspawned == []
    decreases |Now(c).tasks[id].phase.unspawned|
  {
    d := c;
    if Now(c).tasks[id].phase.unspawned != [] {
      var next := SpawnsOne(g, from, c, id);
      d := SpawnsAll(g, from, next, id);
      SpawnsOnlyThenOnly(c, next, d, id);
    }
  }

  predicate ReadyOn(g: Origin, s: State, x: Hash) {
    LiveAt(g.store, x) && SizeOk(g.store.metadata[x]) && SameRow(g.store, s.store, x)
  }

  /** The rows along the route from `m` on, but for the last, are as they were. */
  ghost predicate Ready(g: Origin, s: State, p: Route, m: nat)
    requires |p.hashes| == |p.turns| + 1
  {
    forall i :: m <= i < |p.turns| ==> ReadyOn(g, s, p.hashes[i])
  }

  predicate BeginsAt(g: Origin, c: Course, id: TaskId, p: Route)
    requires c.states != []
  {
    && g.root <= id < |Now(c).tasks| == |c.places| && c.places[id].route == p
    && Now(c).tasks[id].ObliterateTask? && Now(c).tasks[id].phase == Loading
  }

  ghost predicate RowsStand(c: Course, d: Course, p: Route, m: nat)
    requires c.states != [] && d.states != [] && |p.hashes| == |p.turns| + 1
  {
    forall y :: (forall i :: m <= i < |p.turns| ==> p.hashes[i] != y) ==> SameRow(Now(c).store, Now(d).store, y)
  }

  /** Open the task that stands at `m` on the route; one of its children stands at the next place. */
  lemma WalksOne(g: Origin, from: nat, c: Course, id: TaskId, p: Route, m: nat) returns (d: Course)
    requires OnCourse(g, from, c) && IsRoute(g.store, g.a.hash, p) && Simple(p) && m < |p.turns|
    requires BeginsAt(g, c, id, Prefix(p, m)) && Ready(g, Now(c), p, m)
    ensures OnCourse(g, from, d) && OnlyMoves(c, d, id) && IsWaiting(Now(d).tasks[id])
    ensures
      var children := Now(d).tasks[id].phase.children;
      && Expands(g.store, p.hashes[m]) && |children| == |References(g.store, p.hashes[m])|
      && forall k :: 0 <= k < |children| ==>
           |Now(c).tasks| <= children[k] &&
             BeginsAt(g, d, children[k], Onto(Prefix(p, m), k, References(g.store, p.hashes[m])[k]))
    ensures forall y :: y != p.hashes[m] ==> SameRow(Now(c).store, Now(d).store, y)
  {
    PrefixIsRoute(g.store, g.a.hash, p, m);
    assert TaskSound(g, Now(c), c.places, id) && Turns(g.store, p.hashes[m], p.turns[m], p.hashes[m + 1]);
    assert ReadyOn(g, Now(c), p.hashes[m]);
    d := Opens(g, from, c, id);
    var below := d;
    d := SpawnsAll(g, from, below, id);
    assert TaskSound(g, Now(d), d.places, id);
  }

  lemma RowsStandOn(c: Course, d: Course, e: Course, p: Route, m: nat)
    requires c.states != [] && d.states != [] && e.states != [] && |p.hashes| == |p.turns| + 1 && m < |p.turns|
    requires forall y :: y != p.hashes[m] ==> SameRow(Now(c).store, Now(d).store, y)
    requires RowsStand(d, e, p, m + 1)
    ensures RowsStand(c, e, p, m)
  {
    forall y | forall i :: m <= i < |p.turns| ==> p.hashes[i] != y
      ensures SameRow(Now(c).store, Now(e).store, y)
    {
      assert p.hashes[m] != y && SameRow(Now(c).store, Now(d).store, y);
      assert SameRow(Now(d).store, Now(e).store, y);
    }
  }

  /** Down the rest of the route, marking each row on the way, up to a task that stands at its end. */
  lemma {:induction false} Walks(g: Origin, from: nat, c: Course, id: TaskId, p: Route, m: nat)
    returns (d: Course, at: TaskId)
    requires OnCourse(g, from, c) && IsRoute(g.store, g.a.hash, p) && Simple(p) && m <= |p.turns|
    requires BeginsAt(g, c, id, Prefix(p, m)) && Ready(g, Now(c), p, m)
    ensures OnCourse(g, from, d) && OnlyMoves(c, d, id) && BeginsAt(g, d, at, p) && (at == id || at >= |Now(c).tasks|)
    ensures RowsStand(c, d, p, m)
    decreases |p.turns| - m
  {
    PrefixIsRoute(g.store, g.a.hash, p, m);
    if m == |p.turns| {
      d, at := c, id;
    } else {
      assert Turns(g.store, p.hashes[m], p.turns[m], p.hashes[m + 1]);
      var below := WalksOne(g, from, c, id, p, m);
      var child := Now(below).tasks[id].phase.children[p.turns[m]];
      assert BeginsAt(g, below, child, Prefix(p, m + 1));
      forall i | m + 1 <= i < |p.turns|
        ensures ReadyOn(g, Now(below), p.hashes[i])
      {
        assert p.hashes[m] != p.hashes[i] && ReadyOn(g, Now(c), p.hashes[i]);
        assert SameRow(Now(c).store, Now(below).store, p.hashes[i]);
      }
      d, at := Walks(g, from, below, child, p, m + 1);
      RowsStandOn(c, below, d, p, m);
    }
  }

  // ---------------------------------------------------------------------------
  // The collision
  // ---------------------------------------------------------------------------

  /** A row off the route stays ready. */
  lemma StaysReady(g: Origin, c: Course, d: Course, p: Route, m: nat, x: Hash)
    requires c.states != [] && d.states != [] && |p.hashes| == |p.turns| + 1 && RowsStand(c, d, p, m)
    requires ReadyOn(g, Now(c), x) && forall i :: m <= i < |p.turns| ==> p.hashes[i] != x
    ensures ReadyOn(g, Now(d), x)
  {
    assert SameRow(Now(c).store, Now(d).store, x);
  }

  /** All rows that two routes pass, but for those up to where they part. */
  ghost predicate BothReady(g: Origin, s: State, p: Route, q: Route, m: nat)
    requires |p.hashes| == |p.turns| + 1 && |q.hashes| == |q.turns| + 1
  {
    Ready(g, s, p, m) && Ready(g, s, q, m) && ReadyOn(g, s, End(p))
  }

  /** The task at which the routes part gets a child on each. */
  lemma Splits(g: Origin, from: nat, c: Course, p: Route, q: Route, m: nat)
    returns (d: Course, left: TaskId, right: TaskId)
    requires OnCourse(g, from, c) && Meet(g.store, g.a.hash, p, q) && PartAt(p, q, m)
    requires BeginsAt(g, c, g.root, Route([g.a.hash], [])) && BothReady(g, Now(c), p, q, 0)
    ensures OnCourse(g, from, d) && Continues(c, d)
    ensures BeginsAt(g, d, left, Prefix(p, m + 1)) && BeginsAt(g, d, right, Prefix(q, m + 1)) && left != right
    ensures BothReady(g, Now(d), p, q, m + 1)
  {
    var top := Prefix(p, m);
    SameSoFar(g.store, g.a.hash, p, q, m);
    PrefixIsRoute(g.store, g.a.hash, p, m);
    PrefixIsRoute(g.store, g.a.hash, q, m);
    assert Prefix(top, 0) == Route([g.a.hash], []);
    assert forall i :: 0 <= i < |top.turns| ==> top.hashes[i] == p.hashes[i] && ReadyOn(g, Now(c), p.hashes[i]);
    var at;
    d, at := Walks(g, from, c, g.root, top, 0);
    SplitReady(g, c, d, p, q, m);
    var below := WalksOne(g, from, d, at, p, m);
    left, right := Now(below).tasks[at].phase.children[p.turns[m]], Now(below).tasks[at].phase.children[q.turns[m]];
    assert Turns(g.store, p.hashes[m], p.turns[m], p.hashes[m + 1]) &&
      Turns(g.store, q.hashes[m], q.turns[m], q.hashes[m + 1]);
    assert q.hashes[m] == Prefix(q, m).hashes[m] == p.hashes[m];
    StillBothReady(g, d, below, p, q, m);
    assert Prefix(p, m + 1).turns[m] != Prefix(q, m + 1).turns[m];
    d := below;
  }

  lemma SplitReady(g: Origin, c: Course, d: Course, p: Route, q: Route, m: nat)
    requires c.states != [] && d.states != [] && Meet(g.store, g.a.hash, p, q) && PartAt(p, q, m)
    requires Prefix(p, m) == Prefix(q, m)
    requires BothReady(g, Now(c), p, q, 0) && RowsStand(c, d, Prefix(p, m), 0)
    ensures BothReady(g, Now(d), p, q, m)
  {
    forall i | m <= i <= |p.turns|
      ensures ReadyOn(g, Now(c), p.hashes[i]) ==> ReadyOn(g, Now(d), p.hashes[i])
    {
      assert forall k :: 0 <= k < m ==> Prefix(p, m).hashes[k] == p.hashes[k] != p.hashes[i];
      if ReadyOn(g, Now(c), p.hashes[i]) {
        StaysReady(g, c, d, Prefix(p, m), 0, p.hashes[i]);
      }
    }
    forall i | m <= i < |q.turns|
      ensures ReadyOn(g, Now(d), q.hashes[i])
    {
      assert forall k :: 0 <= k < m ==> Prefix(q, m).hashes[k] == q.hashes[k] != q.hashes[i];
      assert ReadyOn(g, Now(c), q.hashes[i]);
      StaysReady(g, c, d, Prefix(p, m), 0, q.hashes[i]);
    }
    assert forall i :: m <= i < |p.turns| ==> ReadyOn(g, Now(c), p.hashes[i]);
  }

  lemma StillBothReady(g: Origin, c: Course, d: Course, p: Route, q: Route, m: nat)
    requires c.states != [] && d.states != [] && Meet(g.store, g.a.hash, p, q) && PartAt(p, q, m)
    requires p.hashes[m] == q.hashes[m]
    requires BothReady(g, Now(c), p, q, m) && forall y :: y != p.hashes[m] ==> SameRow(Now(c).store, Now(d).store, y)
    ensures BothReady(g, Now(d), p, q, m + 1)
  {
    forall i | m + 1 <= i < |p.turns|
      ensures ReadyOn(g, Now(d), p.hashes[i])
    {
      assert ReadyOn(g, Now(c), p.hashes[i]) && SameRow(Now(c).store, Now(d).store, p.hashes[i]);
    }
    forall i | m + 1 <= i < |q.turns|
      ensures ReadyOn(g, Now(d), q.hashes[i])
    {
      assert ReadyOn(g, Now(c), q.hashes[i]) && SameRow(Now(c).store, Now(d).store, q.hashes[i]);
    }
    assert SameRow(Now(c).store, Now(d).store, End(p));
  }

  /** From there a task comes to the meeting on each route, before either takes the lock. */
  lemma BothArrive(g: Origin, from: nat, c: Course, p: Route, q: Route, m: nat, left: TaskId, right: TaskId)
    returns (d: Course, one: TaskId, other: TaskId)
    requires OnCourse(g, from, c) && Meet(g.store, g.a.hash, p, q) && FirstMeeting(p, q, m)
    requires BeginsAt(g, c, left, Prefix(p, m + 1)) && BeginsAt(g, c, right, Prefix(q, m + 1)) && left != right
    requires BothReady(g, Now(c), p, q, m + 1)
    ensures OnCourse(g, from, d) && Continues(c, d) && one != other
    ensures BeginsAt(g, d, one, p) && BeginsAt(g, d, other, q) && ReadyOn(g, Now(d), End(p))
  {
    var halfway;
    halfway, one := Walks(g, from, c, left, p, m + 1);
    assert forall i :: m + 1 <= i < |p.turns| ==> p.hashes[i] != p.hashes[|p.turns|];
    StaysReady(g, c, halfway, p, m + 1, End(p));
    forall j | m + 1 <= j < |q.turns|
      ensures ReadyOn(g, Now(halfway), q.hashes[j])
    {
      assert ReadyOn(g, Now(c), q.hashes[j]);
      StaysReady(g, c, halfway, p, m + 1, q.hashes[j]);
    }
    d, other := Walks(g, from, halfway, right, q, m + 1);
    assert forall j :: m + 1 <= j < |q.turns| ==> q.hashes[j] != q.hashes[|q.turns|];
    StaysReady(g, halfway, d, q, m + 1, End(p));
  }

  /** Both load the row; the first marks it, and the other's compare-and-swap fails. */
  lemma OneLoses(g: Origin, from: nat, c: Course, x: Hash, one: TaskId, other: TaskId) returns (d: Course)
    requires OnCourse(g, from, c) && ReadyOn(g, Now(c), x) && one != other
    requires g.root <= one < |Now(c).tasks| && On(Now(c).tasks[one], x) && Now(c).tasks[one].phase == Loading
    requires g.root <= other < |Now(c).tasks| && On(Now(c).tasks[other], x) && Now(c).tasks[other].phase == Loading
    ensures OnCourse(g, from, d) && Continues(c, d)
    ensures other < |Now(d).tasks| && DoneOn(Now(d).tasks[other], x, false)
  {
    var f := g.store.metadata[x];
    d := Acts(g, from, c, one);
    d := Acts(g, from, d, other);
    assert Now(d).store == Now(c).store && Now(d).tasks[one].phase == Locking(f) &&
      Now(d).tasks[other].phase == Locking(f);
    d := Acts(g, from, d, one);
    assert Now(d).store.metadata[x] == Marked(f) && Now(d).tasks[other].phase == Locking(f);
    d := Acts(g, from, d, other);
  }

  /** All rows on a route are ready at the start, if all that is reachable is stored well. */
  lemma ReadyAtStart(g: Origin, c: Course, p: Route)
    requires c.states != [] && Now(c).store == g.store && IsRoute(g.store, g.a.hash, p)
    requires WellStored(g.store, iset{g.a.hash})
    ensures Ready(g, Now(c), p, 0)
    ensures LiveAt(g.store, End(p)) ==> ReadyOn(g, Now(c), End(p))
  {
    RouteReaches(g.store, g.a.hash, p);
    forall i | 0 <= i < |p.turns|
      ensures ReadyOn(g, Now(c), p.hashes[i])
    {
      assert Turns(g.store, p.hashes[i], p.turns[i], p.hashes[i + 1]);
      PrefixIsRoute(g.store, g.a.hash, p, i);
      RouteReaches(g.store, g.a.hash, Prefix(p, i));
    }
  }

  lemma Collides(g: Origin, from: nat, c: Course, p: Route, q: Route) returns (d: Course, loser: TaskId)
    requires OnCourse(g, from, c) && Now(c).store == g.store && BeginsAt(g, c, g.root, Route([g.a.hash], []))
    requires WellStored(g.store, iset{g.a.hash}) && Meet(g.store, g.a.hash, p, q)
    ensures OnCourse(g, from, d) && Continues(c, d)
    ensures g.root <= loser < |Now(d).tasks| && HasFailed(Now(d).tasks[loser])
  {
    var p', q', m := MeetFirst(g.store, g.a.hash, p, q);
    ReadyAtStart(g, c, p');
    ReadyAtStart(g, c, q');
    var left, right, one;
    d, left, right := Splits(g, from, c, p', q', m);
    d, one, loser := BothArrive(g, from, d, p', q', m, left, right);
    assert TaskSound(g, Now(d), d.places, one) && TaskSound(g, Now(d), d.places, loser);
    d := OneLoses(g, from, d, End(p'), one, loser);
  }

  // ---------------------------------------------------------------------------
  // Exactly when an obliterate is sure to succeed
  // ---------------------------------------------------------------------------

  /** The second run goes on from the first with an undisturbed obliterate of `a`. */
  ghost predicate ObliteratesFrom(states: seq<State>, events: seq<Event>, a: Association, states': seq<State>,
                                  events': seq<Event>) {
    && IsRun(states', events') && states <= states' && events <= events'
    && |events| < |events'| && |events| < |states'| && events'[|events|] == Start(ObliterateTask(a, Loading))
    && Undisturbed(states', events', |events|, |events'|)
  }

  /** No undisturbed run fails, however its tasks interleave; and as each can be, and soon is, brought to its end, it
      succeeds. */
  ghost predicate SureToSucceed(states: seq<State>, events: seq<Event>, a: Association) {
    forall states', events' :: ObliteratesFrom(states, events, a, states', events') ==>
      !RootDone(states', |events|, |events'|, false)
  }

  lemma CanFail(states: seq<State>, events: seq<Event>, a: Association)
    returns (states': seq<State>, events': seq<Event>)
    requires IsRun(states, events)
    requires !WellStored(Last(states).store, iset{a.hash}) || !Treelike(Last(states).store, a.hash)
    ensures ObliteratesFrom(states, events, a, states', events') && RootDone(states', |events|, |events'|, false)
  {
    var from, e := |events|, Start(ObliterateTask(a, Loading));
    var g := OriginOf(Last(states), e);
    states', events' := Grow(states, events, e);
    var starts := TreeStarts(Last(states), e);
    var c := Course(states', events', starts);
    if WellStored(g.store, iset{a.hash}) {
      var p, q :| Meet(g.store, a.hash, p, q);
      var loser;
      c, loser := Collides(g, from, c, p, q);
    }
    states', events' := EndsFailing(g, from, c);
  }

  /** Once a task has failed, or if something reachable is not stored well, going on to the end comes to a failure. */
  lemma EndsFailing(g: Origin, from: nat, c: Course) returns (states: seq<State>, events: seq<Event>)
    requires OnCourse(g, from, c)
    requires
      || !WellStored(g.store, iset{g.a.hash})
      || exists j :: g.root <= j < |Now(c).tasks| && HasFailed(Now(c).tasks[j])
    ensures IsRun(states, events) && from < |events| && Undisturbed(states, events, from, |events|)
    ensures c.states <= states && c.events <= events
    ensures g.root < |Last(states).tasks| && HasFailed(Last(states).tasks[g.root])
  {
    var places;
    states, events, places := GoesOnToEnd(g, c.states, c.events, from, c.places);
    if j :| g.root <= j < |Now(c).tasks| && HasFailed(Now(c).tasks[j]) {
      FailureReachesRoot(g, Last(states), places, j);
    } else if Last(states).tasks[g.root].phase == ObliterateDone(true) {
      SuccessPurges(g, Last(states), places);
    }
  }

  /** The exact condition: at any point of any run, an obliterate that nothing disturbs is sure to succeed if and only
      if all that is reachable is stored well and no live hash can be reached in two ways. */
  lemma SureToSucceedIff(states: seq<State>, events: seq<Event>, a: Association)
    requires IsRun(states, events)
    ensures SureToSucceed(states, events, a) <==>
        WellStored(Last(states).store, iset{a.hash}) && Treelike(Last(states).store, a.hash)
  {
    if WellStored(Last(states).store, iset{a.hash}) && Treelike(Last(states).store, a.hash) {
      forall states', events' | ObliteratesFrom(states, events, a, states', events')
        ensures !RootDone(states', |events|, |events'|, false)
      {
        assert states'[|events|] == Last(states);
        RootNeverFails(states', events', |events|, |events'|);
      }
    } else {
      var states', events' := CanFail(states, events, a);
      assert ObliteratesFrom(states, events, a, states', events');
    }
  }
}
