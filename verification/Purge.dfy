/** The whole effect of obliterating, as a function of the set of hashes it reaches. */
module Purge {
  import opened Fragments
  import opened Snapshots

  /** Who is obliterating: one repository and context for a whole tree of fragments. */
  datatype Scope = Scope(repository: Context, context: Context)

  function Of(scope: Scope, h: Hash): Association {
    Association(h, scope.repository, scope.context)
  }

  /** Some association of `h` other than the scope's own. */
  predicate Shared(s: Snapshot, scope: Scope, h: Hash) {
    exists a :: a in s.associations && a.hash == h && a != Of(scope, h)
  }

  ghost predicate Cut(s: Snapshot, reached: iset<Hash>, scope: Scope, a: Association) {
    a == Of(scope, a.hash) && a.hash in reached && LiveAt(s, a.hash)
  }

  ghost predicate Doomed(s: Snapshot, reached: iset<Hash>, scope: Scope, h: Hash) {
    h in reached && LiveAt(s, h) && !Shared(s, scope, h)
  }

  /** Every live reached hash loses the scope's association; those that nobody else shares lose their
      object and become tombstones. Nothing else changes. */
  ghost function Purged(s: Snapshot, reached: iset<Hash>, scope: Scope): Snapshot {
    Snapshot(
      set a | a in s.associations && !Cut(s, reached, scope, a),
      map h | h in s.metadata :: if Doomed(s, reached, scope, h) then TOMBSTONE else s.metadata[h],
      map h | h in s.objects && !Doomed(s, reached, scope, h) :: s.objects[h],
      s.forceWrite)
  }

  lemma PurgedFades(s: Snapshot, reached: iset<Hash>, scope: Scope)
    ensures Fades(s, Purged(s, reached, scope))
    ensures forall h :: LiveAt(s, h) && h !in reached ==> LiveAt(Purged(s, reached, scope), h)
  {
  }

  lemma PurgedNothing(s: Snapshot, scope: Scope)
    ensures Purged(s, iset{}, scope) == s
  {
  }

  /** Two purges in a row, the second on what the first left live, are one purge of the union. */
  lemma PurgeTwice(s: Snapshot, a: iset<Hash>, b: iset<Hash>, scope: Scope)
    ensures Purged(Purged(s, a, scope), b, scope) == Purged(s, a + b, scope)
  {
    var t := Purged(s, a, scope);
    forall h
      ensures Doomed(s, a + b, scope, h) <==> Doomed(s, a, scope, h) || Doomed(t, b, scope, h)
    {
      if Shared(s, scope, h) {
        var x :| x in s.associations && x.hash == h && x != Of(scope, h);
        assert x in t.associations;
      }
    }
    forall x | x in s.associations
      ensures Cut(s, a + b, scope, x) <==> Cut(s, a, scope, x) || (x in t.associations && Cut(t, b, scope, x))
    {
      if Cut(s, b, scope, x) && !Cut(s, a, scope, x) {
        assert x.hash !in a;
      }
    }
  }

  /** Obliterating siblings one after the other reaches what obliterating them from the start would. */
  lemma PurgeSiblings(s: Snapshot, first: iset<Hash>, second: iset<Hash>, scope: Scope)
    ensures
      var t := Purged(s, Reach(s, first), scope);
      Purged(t, Reach(t, second), scope) == Purged(s, Reach(s, first + second), scope)
  {
    var r := Reach(s, first);
    var t := Purged(s, r, scope);
    PurgedFades(s, r, scope);
    ReachClosed(s, first);
    FadingShrinksReach(s, t, second);
    FadedReachCovered(s, t, r, second);
    ReachUnion(s, first, second);
    assert r + Reach(t, second) == Reach(s, first + second);
    PurgeTwice(s, r, Reach(t, second), scope);
  }

  // ---------------------------------------------------------------------------
  // When an obliterate succeeds
  // ---------------------------------------------------------------------------

  /** The metadata row is there, and if its payload has to be read for references, it can be. */
  predicate Stored(s: Snapshot, h: Hash) {
    && h in s.metadata && SizeOk(s.metadata[h])
    && (LiveAt(s, h) && s.metadata[h].flags.fragmented ==> PayloadAt(s, h).Some?)
  }

  ghost predicate WellStored(s: Snapshot, roots: iset<Hash>) {
    forall h :: h in Reach(s, roots) ==> Stored(s, h)
  }

  lemma UnexpandedReach(s: Snapshot, h: Hash)
    requires !Expands(s, h)
    ensures Reach(s, iset{h}) == iset{h}
  {
    ReachClosed(s, iset{h});
    ReachLeast(s, iset{h}, iset{h});
  }

  lemma StoredThroughMark(s: Snapshot, h: Hash, x: Hash)
    requires LiveAt(s, h) && Stored(s, h)
    ensures Stored(s, x) <==> Stored(Mark(s, h), x)
  {
  }

  /** Locking `h` first does not change whether its tree can be obliterated. */
  lemma WellStoredThroughMark(s: Snapshot, h: Hash)
    requires Expands(s, h) && Stored(s, h)
    ensures WellStored(s, iset{h}) <==> WellStored(Mark(s, h), Roots(References(s, h)))
  {
    var m, below := Mark(s, h), Reach(Mark(s, h), Roots(References(s, h)));
    ReachThroughMark(s, h);
    forall x
      ensures x in Reach(s, iset{h}) <==> x == h || x in below
      ensures Stored(s, x) <==> Stored(m, x)
    {
      StoredThroughMark(s, h, x);
    }
  }

  /** A sibling that fails after others were purged would also have failed from the start. */
  lemma FailureIsOriginal(s: Snapshot, reached: iset<Hash>, child: Hash, scope: Scope)
    requires !WellStored(Purged(s, reached, scope), iset{child})
    ensures !WellStored(s, iset{child})
  {
    var t := Purged(s, reached, scope);
    PurgedFades(s, reached, scope);
    FadingShrinksReach(s, t, iset{child});
    var x :| x in Reach(t, iset{child}) && !Stored(t, x);
    assert !Stored(s, x);
  }

  /** Siblings that all succeed one after the other were well stored from the start. */
  lemma SuccessIsOriginal(s: Snapshot, first: iset<Hash>, child: Hash, scope: Scope)
    requires WellStored(s, first)
    requires WellStored(Purged(s, Reach(s, first), scope), iset{child})
    ensures WellStored(s, first + iset{child})
  {
    var r := Reach(s, first);
    var t := Purged(s, r, scope);
    PurgedFades(s, r, scope);
    ReachClosed(s, first);
    FadedReachCovered(s, t, r, iset{child});
    ReachUnion(s, first, iset{child});
    forall x | x in Reach(s, first + iset{child})
      ensures Stored(s, x)
    {
      if x !in r {
        assert Stored(t, x);
      }
    }
  }

  lemma WellStoredParts(s: Snapshot, all: iset<Hash>, child: Hash)
    requires WellStored(s, all) && child in all
    ensures WellStored(s, iset{child})
  {
    assert all == all + iset{child};
    ReachUnion(s, all, iset{child});
  }

  // ---------------------------------------------------------------------------
  // What any outcome leaves behind
  // ---------------------------------------------------------------------------

  predicate NewTombstone(s: Snapshot, t: Snapshot, h: Hash) {
    LiveAt(s, h) && h in t.metadata && t.metadata[h] == TOMBSTONE
  }

  /** Between `s` and `t` only live reached hashes were touched: marked, or tombstoned with no association left. */
  ghost predicate Eroded(s: Snapshot, t: Snapshot, reached: iset<Hash>, scope: Scope) {
    && s.forceWrite == t.forceWrite
    && s.metadata.Keys == t.metadata.Keys
    && t.associations <= s.associations
    && (forall a :: a in s.associations && a !in t.associations ==> Cut(s, reached, scope, a))
    && (forall h :: h in s.metadata && t.metadata[h] != s.metadata[h] ==>
          && h in reached && LiveAt(s, h)
          && (t.metadata[h] == Marked(s.metadata[h]) || t.metadata[h] == TOMBSTONE))
    && (forall a :: a in t.associations ==> !NewTombstone(s, t, a.hash))
    && t.objects == map h | h in s.objects && !NewTombstone(s, t, h) :: s.objects[h]
  }

  lemma ErodedFades(s: Snapshot, t: Snapshot, reached: iset<Hash>, scope: Scope)
    requires Eroded(s, t, reached, scope)
    ensures Fades(s, t)
  {
  }

  lemma ErodedNot(s: Snapshot, reached: iset<Hash>, scope: Scope)
    ensures Eroded(s, s, reached, scope)
  {
  }

  lemma ErodedKeepsNoNewLive(s: Snapshot, t: Snapshot, reached: iset<Hash>, scope: Scope)
    requires Eroded(s, t, reached, scope)
    ensures LiveRows(t) <= LiveRows(s)
  {
    ErodedFades(s, t, reached, scope);
    assert forall h :: h in LiveRows(t) ==> LiveAt(t, h);
  }

  lemma ErodedThenEroded(s: Snapshot, t: Snapshot, u: Snapshot, reached: iset<Hash>, scope: Scope)
    requires Eroded(s, t, reached, scope) && Eroded(t, u, reached, scope)
    ensures Eroded(s, u, reached, scope)
  {
    forall a | a in s.associations && a !in u.associations
      ensures Cut(s, reached, scope, a)
    {
      assert a in t.associations ==> Cut(t, reached, scope, a);
    }
    assert forall h :: NewTombstone(s, u, h) <==> NewTombstone(s, t, h) || NewTombstone(t, u, h);
  }

  lemma ErodedWiden(s: Snapshot, t: Snapshot, small: iset<Hash>, large: iset<Hash>, scope: Scope)
    requires Eroded(s, t, small, scope) && small <= large
    ensures Eroded(s, t, large, scope)
  {
  }

  lemma PurgedErodes(s: Snapshot, reached: iset<Hash>, scope: Scope)
    ensures Eroded(s, Purged(s, reached, scope), reached, scope)
  {
    var t := Purged(s, reached, scope);
    assert forall h :: NewTombstone(s, t, h) <==> Doomed(s, reached, scope, h);
  }

  lemma MarkErodes(s: Snapshot, h: Hash, scope: Scope)
    requires LiveAt(s, h)
    ensures Eroded(s, Mark(s, h), iset{h}, scope)
  {
  }

  lemma NothingReached(s: Snapshot)
    ensures Reach(s, iset{}) == iset{} && WellStored(s, iset{})
  {
    ReachLeast(s, iset{}, iset{});
  }

  /** One more sibling, run on what earlier siblings left, stays within what all of them reach. */
  lemma ChildWithin(m: Snapshot, t: Snapshot, u: Snapshot, all: iset<Hash>, child: Hash, scope: Scope)
    requires Eroded(m, t, Reach(m, all), scope) && child in all
    requires Eroded(t, u, Reach(t, iset{child}), scope)
    ensures Eroded(m, u, Reach(m, all), scope) && Eroded(t, u, Reach(m, all), scope)
  {
    ErodedFades(m, t, Reach(m, all), scope);
    FadingShrinksReach(m, t, iset{child});
    assert all == all + iset{child};
    ReachUnion(m, all, iset{child});
    ErodedWiden(t, u, Reach(t, iset{child}), Reach(m, all), scope);
    ErodedThenEroded(m, t, u, Reach(m, all), scope);
  }

  // ---------------------------------------------------------------------------
  // The last steps of one call, after its sub-fragments
  // ---------------------------------------------------------------------------

  /** Drop the association; then restore the row if the hash is still associated, else drop the payload too. */
  function Finish(t: Snapshot, h: Hash, original: Fragment, scope: Scope): Snapshot
    requires h in t.metadata
  {
    var left := t.associations - {Of(scope, h)};
    if Shared(t, scope, h) then
      t.(associations := left, metadata := t.metadata[h := original])
    else
      t.(associations := left, metadata := t.metadata[h := TOMBSTONE], objects := t.objects - {h})
  }

  lemma FinishPurges(s: Snapshot, h: Hash, reached: iset<Hash>, scope: Scope)
    requires LiveAt(s, h)
    ensures Finish(Purged(Mark(s, h), reached, scope), h, s.metadata[h], scope) == Purged(s, iset{h} + reached, scope)
  {
    var m := Mark(s, h);
    var t := Purged(m, reached, scope);
    var all := iset{h} + reached;
    assert forall x :: x != h ==> (Doomed(m, reached, scope, x) <==> Doomed(s, all, scope, x));
    assert !Doomed(m, reached, scope, h);
    assert Shared(t, scope, h) <==> Shared(s, scope, h) by {
      if Shared(s, scope, h) {
        var a :| a in s.associations && a.hash == h && a != Of(scope, h);
        assert a in t.associations;
      }
    }
  }

  // ---------------------------------------------------------------------------
  // Accounting
  // ---------------------------------------------------------------------------

  /** `gone` are the hashes tombstoned between `s` and `t`. */
  ghost predicate Tombstoned(s: Snapshot, t: Snapshot, gone: set<Hash>) {
    forall h :: h in gone <==> NewTombstone(s, t, h)
  }

  lemma TombstonedThenTombstoned(s: Snapshot, t: Snapshot, u: Snapshot, first: set<Hash>, second: set<Hash>,
                                 reached: iset<Hash>, scope: Scope)
    requires Eroded(s, t, reached, scope) && Eroded(t, u, reached, scope)
    requires Tombstoned(s, t, first) && Tombstoned(t, u, second)
    ensures Tombstoned(s, u, first + second) && |first + second| == |first| + |second|
  {
    forall h
      ensures NewTombstone(s, u, h) <==> NewTombstone(s, t, h) || NewTombstone(t, u, h)
      ensures !(NewTombstone(s, t, h) && NewTombstone(t, u, h))
    {
    }
    assert first !! second;
  }

  lemma TombstonedByFinish(s: Snapshot, t: Snapshot, h: Hash, scope: Scope, gone: set<Hash>)
    requires LiveAt(s, h) && h in t.metadata && t.metadata[h] == Marked(s.metadata[h]) && Tombstoned(s, t, gone)
    ensures h !in gone
    ensures Tombstoned(s, Finish(t, h, s.metadata[h], scope), if Shared(t, scope, h) then gone else gone + {h})
  {
    assert !NewTombstone(s, t, h);
    var u := Finish(t, h, s.metadata[h], scope);
    assert forall x :: x != h ==> (NewTombstone(s, u, x) <==> NewTombstone(s, t, x));
  }

  lemma ErodedObject(s: Snapshot, t: Snapshot, reached: iset<Hash>, scope: Scope, h: Hash)
    requires Eroded(s, t, reached, scope)
    ensures h in t.objects <==> h in s.objects && !NewTombstone(s, t, h)
  {
  }

  lemma SplitCount(whole: set<Hash>, left: set<Hash>, gone: set<Hash>)
    requires forall h :: h in left <==> h in whole && h !in gone
    requires gone <= whole
    ensures |whole| - |left| == |gone|
  {
    assert whole == left + gone && left !! gone;
  }

  /** If every live row had its object, exactly one object went away for each new tombstone. */
  lemma TombstonesCountObjects(s: Snapshot, t: Snapshot, reached: iset<Hash>, scope: Scope, gone: set<Hash>)
    requires Eroded(s, t, reached, scope) && Tombstoned(s, t, gone)
    requires forall h :: LiveAt(s, h) ==> h in s.objects
    ensures |s.objects| - |t.objects| == |gone|
  {
    var whole, left := s.objects.Keys, t.objects.Keys;
    forall h
      ensures h in left <==> h in whole && h !in gone
      ensures h in gone ==> h in whole
    {
      ErodedObject(s, t, reached, scope, h);
    }
    SplitCount(whole, left, gone);
    assert |whole| == |s.objects| && |left| == |t.objects|;
  }

  // ---------------------------------------------------------------------------
  // The contract of an obliterate
  // ---------------------------------------------------------------------------

  /** Obliterating `roots` succeeds exactly when all that is reachable is stored well enough, and then purges exactly
      that; otherwise too, only live reachable rows were touched. Either way, `gone` are the new tombstones. */
  ghost predicate Obliterates(s: Snapshot, t: Snapshot, roots: iset<Hash>, scope: Scope, ok: bool, gone: set<Hash>) {
    && Tombstoned(s, t, gone)
    && if ok then WellStored(s, roots) && t == Purged(s, Reach(s, roots), scope)
       else !WellStored(s, roots) && Eroded(s, t, Reach(s, roots), scope)
  }

  lemma ObliteratesErodes(s: Snapshot, t: Snapshot, roots: iset<Hash>, scope: Scope, ok: bool, gone: set<Hash>)
    requires Obliterates(s, t, roots, scope, ok, gone)
    ensures Eroded(s, t, Reach(s, roots), scope)
  {
    if ok {
      PurgedErodes(s, Reach(s, roots), scope);
    }
  }

  lemma ObliteratesFlagged(s: Snapshot, h: Hash, scope: Scope)
    requires Stored(s, h) && !LiveAt(s, h)
    ensures Obliterates(s, s, iset{h}, scope, true, {})
  {
    UnexpandedReach(s, h);
    assert Purged(s, iset{h}, scope) == s;
  }

  lemma ObliteratesMissing(s: Snapshot, h: Hash, scope: Scope)
    requires !(h in s.metadata && SizeOk(s.metadata[h]))
    ensures Obliterates(s, s, iset{h}, scope, false, {})
  {
    ErodedNot(s, Reach(s, iset{h}), scope);
    RootReached(s, iset{h}, h);
    assert h in Reach(s, iset{h}) && !Stored(s, h);
  }

  lemma ObliteratesUnreadable(s: Snapshot, h: Hash, scope: Scope)
    requires LiveAt(s, h) && !Stored(s, h)
    ensures Obliterates(s, Mark(s, h), iset{h}, scope, false, {})
  {
    ReachClosed(s, iset{h});
    assert h in Reach(s, iset{h}) && !Stored(s, h);
    MarkErodes(s, h, scope);
    ErodedWiden(s, Mark(s, h), iset{h}, Reach(s, iset{h}), scope);
  }

  lemma ObliteratesSingle(s: Snapshot, h: Hash, scope: Scope)
    requires LiveAt(s, h) && Stored(s, h) && !s.metadata[h].flags.fragmented
    ensures Obliterates(s, Finish(Mark(s, h), h, s.metadata[h], scope), iset{h}, scope, true,
                        if Shared(s, scope, h) then {} else {h})
  {
    UnexpandedReach(s, h);
    TombstonedByFinish(s, Mark(s, h), h, scope, {});
    PurgedNothing(Mark(s, h), scope);
    FinishPurges(s, h, iset{}, scope);
    assert iset{h} + iset{} == iset{h};
  }

  lemma ObliteratesTree(s: Snapshot, t: Snapshot, h: Hash, scope: Scope, ok: bool, gone: set<Hash>)
    requires Expands(s, h) && Stored(s, h)
    requires Obliterates(Mark(s, h), t, Roots(References(s, h)), scope, ok, gone)
    ensures h in t.metadata && t.metadata[h] == Marked(s.metadata[h]) && h !in gone && t.associations <= s.associations
    ensures ok ==> Obliterates(s, Finish(t, h, s.metadata[h], scope), iset{h}, scope, true,
                               if Shared(t, scope, h) then gone else gone + {h})
    ensures !ok ==> Obliterates(s, t, iset{h}, scope, false, gone)
  {
    var m := Mark(s, h);
    var below := Reach(m, Roots(References(s, h)));
    MarkFades(s, h);
    ObliteratesErodes(m, t, Roots(References(s, h)), scope, ok, gone);
    assert Tombstoned(s, t, gone);
    TombstonedByFinish(s, t, h, scope, gone);
    WellStoredThroughMark(s, h);
    ReachThroughMark(s, h);
    if ok {
      FinishPurges(s, h, below, scope);
    } else {
      MarkErodes(s, h, scope);
      ErodedWiden(s, m, iset{h}, iset{h} + below, scope);
      ErodedWiden(m, t, below, iset{h} + below, scope);
      ErodedThenEroded(s, m, t, iset{h} + below, scope);
    }
  }

  /** Nobody else has an association of a live reachable hash. */
  ghost predicate NoneShared(s: Snapshot, roots: iset<Hash>, scope: Scope) {
    forall h :: h in Reach(s, roots) && LiveAt(s, h) ==> !Shared(s, scope, h)
  }

  lemma NoneSharedBelow(s: Snapshot, h: Hash, scope: Scope)
    requires Expands(s, h) && NoneShared(s, iset{h}, scope)
    ensures NoneShared(Mark(s, h), Roots(References(s, h)), scope)
  {
    MarkedReachWithin(s, h);
  }

  lemma NoneSharedNext(m: Snapshot, t: Snapshot, all: iset<Hash>, child: Hash, scope: Scope)
    requires Eroded(m, t, Reach(m, all), scope) && child in all && NoneShared(m, all, scope)
    ensures NoneShared(t, iset{child}, scope)
  {
    ErodedFades(m, t, Reach(m, all), scope);
    FadingShrinksReach(m, t, iset{child});
    assert all == all + iset{child};
    ReachUnion(m, all, iset{child});
  }

  /** The sub-fragments in `done` have been obliterated, out of `all`. */
  ghost predicate Progress(m: Snapshot, t: Snapshot, done: iset<Hash>, all: iset<Hash>, scope: Scope, failures: bool,
                           gone: set<Hash>)
  {
    && done <= all
    && Tombstoned(m, t, gone)
    && Eroded(m, t, Reach(m, all), scope)
    && (if failures then !WellStored(m, all) else WellStored(m, done) && t == Purged(m, Reach(m, done), scope))
  }

  lemma ProgressStart(m: Snapshot, all: iset<Hash>, scope: Scope)
    ensures Progress(m, m, iset{}, all, scope, false, {})
  {
    NothingReached(m);
    PurgedNothing(m, scope);
  }

  lemma ProgressStep(m: Snapshot, t: Snapshot, u: Snapshot, done: iset<Hash>, all: iset<Hash>, child: Hash,
                     scope: Scope, failures: bool, ok: bool, gone: set<Hash>, more: set<Hash>)
    requires Progress(m, t, done, all, scope, failures, gone) && child in all
    requires Obliterates(t, u, iset{child}, scope, ok, more)
    ensures Progress(m, u, done + iset{child}, all, scope, failures || !ok, gone + more)
    ensures |gone + more| == |gone| + |more|
  {
    ObliteratesErodes(t, u, iset{child}, scope, ok, more);
    ChildWithin(m, t, u, all, child, scope);
    TombstonedThenTombstoned(m, t, u, gone, more, Reach(m, all), scope);
    if !failures {
      if ok {
        SuccessIsOriginal(m, done, child, scope);
        PurgeSiblings(m, done, iset{child}, scope);
      } else {
        FailureIsOriginal(m, Reach(m, done), child, scope);
        if WellStored(m, all) {
          WellStoredParts(m, all, child);
        }
      }
    }
  }
}
