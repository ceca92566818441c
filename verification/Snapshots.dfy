/** The contents of the immutable store as a value, and what obliterating does to it. */
module Snapshots {
  import opened ByteStrings
  import opened Outcomes
  import opened Fragments

  type Context(==, !new, 0)

  const ZERO_CONTEXT: Context

  datatype Association = Association(hash: Hash, repository: Context, context: Context)

  datatype Snapshot = Snapshot(
    associations: set<Association>,
    metadata: map<Hash, Fragment>,
    objects: map<Hash, Bytes>,
    forceWrite: bool)

  // Library code outside this model: the references a fragmented payload lists, and the size checks.
  // A size check looks at the two sizes only and accepts a tombstone; the payload check implies it.
  datatype Library = Library(
    references: Bytes -> seq<Hash>,
    sizeOk: (U32, U64) -> bool,
    payloadOk: (Fragment, nat) -> bool,
    sanitise: Fragment -> Fragment)

  ghost predicate SizeChecksAgree(l: Library) {
    && l.sizeOk(0, 0)
    && forall f, n :: l.payloadOk(f, n) ==> l.sizeOk(f.sizePayload, f.sizeContent)
  }

  type SoundLibrary = l: Library | SizeChecksAgree(l)
    witness Library(_ => [], (_, _) => true, (_, _) => true, f => f)

  const LIBRARY: SoundLibrary

  predicate SizeOk(f: Fragment) {
    LIBRARY.sizeOk(f.sizePayload, f.sizeContent)
  }

  predicate LiveAt(s: Snapshot, h: Hash) {
    h in s.metadata && Live(s.metadata[h])
  }

  function LiveRows(s: Snapshot): set<Hash> {
    set h | h in s.metadata && Live(s.metadata[h])
  }

  /** The payload of `h` as its metadata row sizes it, if the object is there and fits. */
  function PayloadAt(s: Snapshot, h: Hash): Option<Bytes>
    requires h in s.metadata
  {
    if h in s.objects then ReadPayload(s.forceWrite, s.objects[h], s.metadata[h]) else None
  }

  // ---------------------------------------------------------------------------
  // Reachability through live fragmented nodes
  // ---------------------------------------------------------------------------

  /** Obliterating `h` goes on to the fragments that its payload references. */
  predicate Expands(s: Snapshot, h: Hash) {
    LiveAt(s, h) && s.metadata[h].flags.fragmented && PayloadAt(s, h).Some?
  }

  function References(s: Snapshot, h: Hash): seq<Hash>
    requires Expands(s, h)
  {
    LIBRARY.references(PayloadAt(s, h).value)
  }

  ghost predicate Chain(s: Snapshot, p: seq<Hash>) {
    forall i :: 0 <= i < |p| - 1 ==> Expands(s, p[i]) && p[i + 1] in References(s, p[i])
  }

  ghost predicate ChainTo(s: Snapshot, roots: iset<Hash>, p: seq<Hash>, x: Hash) {
    |p| > 0 && p[0] in roots && p[|p| - 1] == x && Chain(s, p)
  }

  ghost predicate Reaches(s: Snapshot, roots: iset<Hash>, x: Hash) {
    exists p :: ChainTo(s, roots, p, x)
  }

  /** All hashes at the end of a chain of references from a root. */
  ghost function Reach(s: Snapshot, roots: iset<Hash>): iset<Hash> {
    iset x | Reaches(s, roots, x)
  }

  ghost predicate Closed(s: Snapshot, c: iset<Hash>) {
    forall x, y :: x in c && Expands(s, x) && y in References(s, x) ==> y in c
  }

  lemma RootReached(s: Snapshot, roots: iset<Hash>, x: Hash)
    requires x in roots
    ensures Reaches(s, roots, x)
  {
    assert ChainTo(s, roots, [x], x);
  }

  lemma StepReached(s: Snapshot, roots: iset<Hash>, x: Hash, y: Hash)
    requires Reaches(s, roots, x) && Expands(s, x) && y in References(s, x)
    ensures Reaches(s, roots, y)
  {
    var p :| ChainTo(s, roots, p, x);
    var q := p + [y];
    forall i | 0 <= i < |q| - 1
      ensures Expands(s, q[i]) && q[i + 1] in References(s, q[i])
    {
      assert q[i] == p[i];
    }
    assert ChainTo(s, roots, q, y);
  }

  lemma ReachClosed(s: Snapshot, roots: iset<Hash>)
    ensures roots <= Reach(s, roots)
    ensures Closed(s, Reach(s, roots))
  {
    forall x | x in roots
      ensures x in Reach(s, roots)
    {
      RootReached(s, roots, x);
    }
    forall x, y | x in Reach(s, roots) && Expands(s, x) && y in References(s, x)
      ensures y in Reach(s, roots)
    {
      StepReached(s, roots, x, y);
    }
  }

  lemma {:induction false} ChainStays(s: Snapshot, c: iset<Hash>, p: seq<Hash>)
    requires Closed(s, c) && Chain(s, p) && |p| > 0 && p[0] in c
    ensures p[|p| - 1] in c
  {
    if |p| > 1 {
      assert p[1] in References(s, p[0]);
      ChainStays(s, c, p[1..]);
    }
  }

  /** Reach is the least closed set containing the roots. */
  lemma ReachLeast(s: Snapshot, roots: iset<Hash>, c: iset<Hash>)
    requires Closed(s, c) && roots <= c
    ensures Reach(s, roots) <= c
  {
    forall x | x in Reach(s, roots)
      ensures x in c
    {
      var p :| ChainTo(s, roots, p, x);
      ChainStays(s, c, p);
    }
  }

  /** `t` keeps every live row of `s` it still has live, together with that row's object. */
  ghost predicate Fades(s: Snapshot, t: Snapshot) {
    && s.forceWrite == t.forceWrite
    && s.metadata.Keys == t.metadata.Keys
    && forall h :: LiveAt(t, h) ==>
         && LiveAt(s, h) && t.metadata[h] == s.metadata[h]
         && (h in t.objects <==> h in s.objects) && (h in s.objects ==> t.objects[h] == s.objects[h])
  }

  lemma FadedExpands(s: Snapshot, t: Snapshot, x: Hash)
    requires Fades(s, t) && LiveAt(t, x)
    ensures Expands(t, x) <==> Expands(s, x)
    ensures Expands(t, x) ==> References(t, x) == References(s, x)
  {
  }

  /** Flagging rows can only cut chains. */
  lemma FadingShrinksReach(s: Snapshot, t: Snapshot, roots: iset<Hash>)
    requires Fades(s, t)
    ensures Reach(t, roots) <= Reach(s, roots)
  {
    var c := Reach(s, roots);
    ReachClosed(s, roots);
    forall x, y | x in c && Expands(t, x) && y in References(t, x)
      ensures y in c
    {
      FadedExpands(s, t, x);
    }
    ReachLeast(t, roots, c);
  }

  /** What was reachable still is, unless the chain ran into a part that was already closed off. */
  lemma FadedReachCovered(s: Snapshot, t: Snapshot, done: iset<Hash>, roots: iset<Hash>)
    requires Fades(s, t) && Closed(s, done)
    requires forall h :: LiveAt(s, h) && h !in done ==> LiveAt(t, h)
    ensures Reach(s, roots) <= done + Reach(t, roots)
  {
    ReachClosed(t, roots);
    var c := done + Reach(t, roots);
    forall x, y | x in c && Expands(s, x) && y in References(s, x)
      ensures y in c
    {
      if x !in done {
        assert Expands(t, x) && References(t, x) == References(s, x);
      }
    }
    ReachLeast(s, roots, c);
  }

  lemma ReachGrows(s: Snapshot, a: iset<Hash>, b: iset<Hash>)
    requires a <= b
    ensures Reach(s, a) <= Reach(s, b)
  {
    ReachClosed(s, b);
    ReachLeast(s, a, Reach(s, b));
  }

  lemma ReachUnion(s: Snapshot, a: iset<Hash>, b: iset<Hash>)
    ensures Reach(s, a + b) == Reach(s, a) + Reach(s, b)
  {
    var c := Reach(s, a) + Reach(s, b);
    ReachGrows(s, a, a + b);
    ReachGrows(s, b, a + b);
    forall x, y | x in c && Expands(s, x) && y in References(s, x)
      ensures y in c
    {
      ReachClosed(s, a);
      ReachClosed(s, b);
    }
    ReachClosed(s, a);
    ReachClosed(s, b);
    ReachLeast(s, a + b, c);
  }

  function Mark(s: Snapshot, h: Hash): Snapshot
    requires h in s.metadata
  {
    s.(metadata := s.metadata[h := Marked(s.metadata[h])])
  }

  ghost function Roots(children: seq<Hash>): iset<Hash> {
    iset x | x in children
  }

  lemma MarkFades(s: Snapshot, h: Hash)
    requires LiveAt(s, h)
    ensures Fades(s, Mark(s, h)) && !LiveAt(Mark(s, h), h)
    ensures forall x :: LiveAt(s, x) && x != h ==> LiveAt(Mark(s, h), x)
    ensures LiveRows(Mark(s, h)) < LiveRows(s)
  {
    assert h in LiveRows(s);
  }

  lemma MarkedReachCloses(s: Snapshot, h: Hash)
    requires Expands(s, h)
    ensures Closed(s, iset{h} + Reach(Mark(s, h), Roots(References(s, h))))
  {
    var m, kids := Mark(s, h), Roots(References(s, h));
    var r := Reach(m, kids);
    MarkFades(s, h);
    ReachClosed(m, kids);
    forall x, y | x in iset{h} + r && Expands(s, x) && y in References(s, x)
      ensures y in r
    {
      if x == h {
        assert y in kids;
      } else {
        FadedExpands(s, m, x);
        assert x in r && Expands(m, x) && y in References(m, x);
      }
    }
  }

  lemma MarkedReachWithin(s: Snapshot, h: Hash)
    requires Expands(s, h)
    ensures Reach(Mark(s, h), Roots(References(s, h))) <= Reach(s, iset{h})
  {
    var kids := Roots(References(s, h));
    MarkFades(s, h);
    FadingShrinksReach(s, Mark(s, h), kids);
    ReachClosed(s, iset{h});
    forall y | y in kids
      ensures y in Reach(s, iset{h})
    {
      assert h in Reach(s, iset{h}) && y in References(s, h);
    }
    ReachLeast(s, kids, Reach(s, iset{h}));
  }

  /** Taking the lock on `h` first loses nothing: a cycle back to `h` only leads where its children lead. */
  lemma ReachThroughMark(s: Snapshot, h: Hash)
    requires LiveAt(s, h)
    ensures Reach(s, iset{h}) == if Expands(s, h) then iset{h} + Reach(Mark(s, h), Roots(References(s, h))) else iset{h}
  {
    ReachClosed(s, iset{h});
    if Expands(s, h) {
      MarkedReachCloses(s, h);
      MarkedReachWithin(s, h);
      ReachLeast(s, iset{h}, iset{h} + Reach(Mark(s, h), Roots(References(s, h))));
    } else {
      ReachLeast(s, iset{h}, iset{h});
    }
  }
}
