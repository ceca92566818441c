/** The positions from which an obliterate can come to a hash: routes of references down from the one it starts at. */
module Routes {
  import opened Fragments
  import opened Snapshots

  /** The hashes passed, and at each but the last the place in its list of references that leads on. */
  datatype Route = Route(hashes: seq<Hash>, turns: seq<nat>)

  predicate Turns(s: Snapshot, from: Hash, turn: nat, next: Hash) {
    Expands(s, from) && turn < |References(s, from)| && References(s, from)[turn] == next
  }

  ghost predicate IsRoute(s: Snapshot, h: Hash, r: Route) {
    && |r.hashes| == |r.turns| + 1 && r.hashes[0] == h
    && forall i :: 0 <= i < |r.turns| ==> Turns(s, r.hashes[i], r.turns[i], r.hashes[i + 1])
  }

  function End(r: Route): Hash
    requires r.hashes != []
  {
    r.hashes[|r.hashes| - 1]
  }

  /** No hash twice: below a hash that is being obliterated, meeting it again leads nowhere. */
  ghost predicate Simple(r: Route) {
    forall i, j :: 0 <= i < j < |r.hashes| ==> r.hashes[i] != r.hashes[j]
  }

  function Onto(r: Route, turn: nat, h: Hash): Route {
    Route(r.hashes + [h], r.turns + [turn])
  }

  lemma OntoIsRoute(s: Snapshot, h: Hash, r: Route, turn: nat, next: Hash)
    requires IsRoute(s, h, r) && Turns(s, End(r), turn, next)
    ensures IsRoute(s, h, Onto(r, turn, next)) && End(Onto(r, turn, next)) == next
  {
  }

  lemma RouteReaches(s: Snapshot, h: Hash, r: Route)
    requires IsRoute(s, h, r)
    ensures End(r) in Reach(s, iset{h})
  {
    forall i | 0 <= i < |r.hashes| - 1
      ensures Expands(s, r.hashes[i]) && r.hashes[i + 1] in References(s, r.hashes[i])
    {
      assert Turns(s, r.hashes[i], r.turns[i], r.hashes[i + 1]);
    }
    assert ChainTo(s, iset{h}, r.hashes, End(r));
  }

  /** Two different simple routes to one live hash. */
  ghost predicate Meet(s: Snapshot, h: Hash, p: Route, q: Route) {
    && IsRoute(s, h, p) && IsRoute(s, h, q) && Simple(p) && Simple(q)
    && p != q && End(p) == End(q) && LiveAt(s, End(p))
  }

  /** Each live hash is reached in at most one way. */
  ghost predicate Treelike(s: Snapshot, h: Hash) {
    forall p, q :: !Meet(s, h, p, q)
  }

  /** No live reachable hash is listed at two places. */
  ghost predicate ListedOnce(s: Snapshot, h: Hash) {
    forall x, y, i, j, k ::
      (x in Reach(s, iset{h}) && y in Reach(s, iset{h}) && LiveAt(s, k) && Turns(s, x, i, k) && Turns(s, y, j, k)) ==>
        x == y && i == j
  }

  function Shorter(r: Route): Route
    requires r.turns != [] && |r.hashes| == |r.turns| + 1
  {
    Route(r.hashes[..|r.turns|], r.turns[..|r.turns| - 1])
  }

  lemma ShorterIsRoute(s: Snapshot, h: Hash, r: Route)
    requires IsRoute(s, h, r) && r.turns != []
    ensures IsRoute(s, h, Shorter(r)) && Turns(s, End(Shorter(r)), r.turns[|r.turns| - 1], End(r))
    ensures Simple(r) ==> Simple(Shorter(r))
    ensures r == Onto(Shorter(r), r.turns[|r.turns| - 1], End(r))
  {
    var b := Shorter(r);
    forall i | 0 <= i < |b.turns|
      ensures Turns(s, b.hashes[i], b.turns[i], b.hashes[i + 1])
    {
      assert Turns(s, r.hashes[i], r.turns[i], r.hashes[i + 1]);
    }
    assert Turns(s, r.hashes[|r.turns| - 1], r.turns[|r.turns| - 1], r.hashes[|r.turns|]);
  }

  /** If no live reachable hash is listed at two places, each is reached in at most one way. */
  lemma ListedOnceIsTreelike(s: Snapshot, h: Hash)
    requires ListedOnce(s, h)
    ensures Treelike(s, h)
  {
    forall p, q
      ensures !Meet(s, h, p, q)
    {
      NoneMeet(s, h, p, q);
    }
  }

  lemma {:induction false} NoneMeet(s: Snapshot, h: Hash, p: Route, q: Route)
    requires ListedOnce(s, h)
    ensures !Meet(s, h, p, q)
    decreases |p.turns|
  {
    if IsRoute(s, h, p) && IsRoute(s, h, q) && Simple(p) && Simple(q) && End(p) == End(q) && LiveAt(s, End(p)) {
      if p.turns == [] || q.turns == [] {
        BackToStart(s, h, p);
        BackToStart(s, h, q);
      } else {
        ShorterIsRoute(s, h, p);
        ShorterIsRoute(s, h, q);
        RouteReaches(s, h, Shorter(p));
        RouteReaches(s, h, Shorter(q));
        assert End(Shorter(p)) == End(Shorter(q)) && p.turns[|p.turns| - 1] == q.turns[|q.turns| - 1];
        NoneMeet(s, h, Shorter(p), Shorter(q));
      }
    }
  }

  lemma BackToStart(s: Snapshot, h: Hash, r: Route)
    requires IsRoute(s, h, r) && Simple(r)
    ensures End(r) == h <==> r.turns == []
    ensures End(r) == h ==> r == Route([h], [])
  {
    assert End(r) == r.hashes[|r.turns|];
  }

  // ---------------------------------------------------------------------------
  // How many statements the tasks of an obliterate can take
  // ---------------------------------------------------------------------------

  /** Of a task that starts on `k` below the hashes `above`. */
  function Weight(s: Snapshot, above: set<Hash>, k: Hash): nat
    decreases LiveRows(s) - above, 0, 0
  {
    if Expands(s, k) && k !in above then
      assert k in LiveRows(s);
      10 + WeightAll(s, above + {k}, References(s, k))
    else 10
  }

  /** Of spawning tasks on `ks`, and of those tasks. */
  function WeightAll(s: Snapshot, above: set<Hash>, ks: seq<Hash>): nat
    decreases LiveRows(s) - above, 1, |ks|
  {
    if ks == [] then 0 else 1 + Weight(s, above, ks[0]) + WeightAll(s, above, ks[1..])
  }
}
