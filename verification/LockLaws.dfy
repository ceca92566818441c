/** What the lock store's operations come to, said of rows, requests and answers alone. */
module LockLaws {
  import opened ByteStrings
  import opened Outcomes
  import opened LockStore

  // ---------------------------------------------------------------------------
  // Locking
  // ---------------------------------------------------------------------------

  /** A batch is refused exactly if one of its keys has the row of another owner, and then nothing changes. */
  lemma LockRefusedIff(rows: Table, q: Request, result: LockResult<seq<LockData>>, after: Table)
    requires Locks(rows, q, result, after)
    ensures result == Err(LockNotOwned) <==>
            exists r :: r in q.resources && Key(q.repository, r.branch, r.hash) in rows
              && rows[Key(q.repository, r.branch, r.hash)].owner != q.owner
    ensures result.Err? ==> result == Err(LockNotOwned) && after == rows
  {
    if r :| r in q.resources && Key(q.repository, r.branch, r.hash) in rows
            && rows[Key(q.repository, r.branch, r.hash)].owner != q.owner {
      assert KeyOf(q.repository, r) == Key(q.repository, r.branch, r.hash);
    }
  }

  /** Reported as newly locked are exactly the requested resources whose key had no row, by this owner and at this
      time; of several with one key, the one with the least description. */
  lemma NewlyExactly(rows: Table, q: Request, newly: seq<LockData>, after: Table)
    requires Locks(rows, q, Ok(newly), after)
    ensures forall d :: d in newly <==>
              && d.owner == q.owner && d.lockedAt == q.now && d.resource in q.resources
              && Key(q.repository, d.resource.branch, d.resource.hash) !in rows
              && forall o :: o in q.resources && o.branch == d.resource.branch && o.hash == d.resource.hash ==>
                   o.description == d.resource.description || Before(d.resource.description, o.description)
    ensures forall i, j :: 0 <= i < j < |newly| ==>
              || Before(newly[i].resource.branch, newly[j].resource.branch)
              || (newly[i].resource.branch == newly[j].resource.branch
                  && Before(newly[i].resource.hash, newly[j].resource.hash))
  {
    forall d: LockData, o: Resource | SamePlace(o, d.resource)
      ensures o == d.resource || Less(d.resource, o) <==>
              o.description == d.resource.description || Before(d.resource.description, o.description)
    {
      LessTotal(o, o);
      BeforeTotal(o.branch, o.branch);
      BeforeTotal(o.hash, o.hash);
    }
  }

  /** The rows afterwards: every old one as it was, and one for each of the newly locked. */
  lemma LockedRowsExactly(rows: Table, q: Request, newly: seq<LockData>, after: Table, k: Key)
    requires Locks(rows, q, Ok(newly), after)
    ensures k in after <==>
            k in rows || exists r :: r in q.resources && k == Key(q.repository, r.branch, r.hash)
    ensures k in rows ==> k in after && after[k] == rows[k]
    ensures k in after && k !in rows ==>
              exists d :: d in newly && k == Key(q.repository, d.resource.branch, d.resource.hash)
                && after[k] == Row(q.owner, d.resource.description, q.now)
    ensures forall d :: d in newly ==>
              Key(q.repository, d.resource.branch, d.resource.hash) in after
  {
    if r :| r in q.resources && k == Key(q.repository, r.branch, r.hash) {
      assert k == KeyOf(q.repository, r);
    }
    if k in after && k !in rows {
      assert ChosenFor(rows, q, k, after[k]);
      var r :| Chosen(rows, q, r) && k == KeyOf(q.repository, r) && after[k] == RowFor(q, r);
      assert DataFor(q, r) in newly;
      assert r in q.resources && k == Key(q.repository, r.branch, r.hash);
    }
    forall d | d in newly
      ensures Key(q.repository, d.resource.branch, d.resource.hash) in after
    {
      assert Chosen(rows, q, d.resource) && KeyOf(q.repository, d.resource) in after;
    }
  }

  // ---------------------------------------------------------------------------
  // Unlocking
  // ---------------------------------------------------------------------------

  /** A successful unlock takes the rows of all keys requested, and no other, and answers with the distinct resources.
      */
  lemma UnlockedRowsExactly(rows: Table, owner: Owner, validate: bool, repository: Repository,
                            requested: seq<Resource>, answer: seq<Resource>, after: Table)
    requires Unlocks(rows, owner, validate, repository, SortDedup(requested), Ok(answer), after)
    ensures forall k :: k in after <==>
              k in rows && !exists r :: r in requested && k == Key(repository, r.branch, r.hash)
    ensures forall k :: k in after ==> after[k] == rows[k]
    ensures forall r :: r in answer <==> r in requested
  {
    forall k | k in rows
      ensures (exists r :: r in SortDedup(requested) && k == KeyOf(repository, r)) <==>
              (exists r :: r in requested && k == Key(repository, r.branch, r.hash))
    {
      if r :| r in requested && k == Key(repository, r.branch, r.hash) {
        assert r in SortDedup(requested) && k == KeyOf(repository, r);
      }
    }
  }

  /** Without validation nothing fails. */
  lemma UnvalidatedSucceeds(rows: Table, owner: Owner, repository: Repository, requested: seq<Resource>,
                            result: LockResult<seq<Resource>>, after: Table)
    requires Unlocks(rows, owner, false, repository, SortDedup(requested), result, after)
    ensures result.Ok?
  {
  }

  /** A validated unlock that fails changes nothing and blames the first resource, by branch, hash and description,
      whose row it cannot delete: held by another owner, not there, or deleted just before under another description.
      */
  lemma UnlockBlames(rows: Table, owner: Owner, repository: Repository, requested: seq<Resource>, error: LockError,
                     after: Table)
    returns (r: Resource)
    requires Unlocks(rows, owner, true, repository, SortDedup(requested), Err(error), after)
    ensures after == rows && r in requested
    ensures
      var k := Key(repository, r.branch, r.hash);
      if k !in rows then error == LockNotFound
      else if rows[k].owner != owner then error == LockNotOwned
      else
        && error == LockNotFound
        && exists o ::
             o in requested && o.branch == r.branch && o.hash == r.hash && Before(o.description, r.description)
    ensures forall o :: o in requested && Less(o, r) ==>
              && Key(repository, o.branch, o.hash) in rows
              && rows[Key(repository, o.branch, o.hash)].owner == owner
  {
    var rs := SortDedup(requested);
    SortDedupOrdered(requested);
    var i: nat :| FirstMiss(rows, owner, repository, rs, i) &&
      error == MissError(rows, owner, KeyOf(repository, rs[i]));
    r := rs[i];
    if OwnedBy(rows, owner, KeyOf(repository, r)) {
      var j :| 0 <= j < i && SamePlace(rs[j], r);
      LessTotal(rs[j], r);
    }
    forall o | o in requested && Less(o, r)
      ensures OwnedBy(rows, owner, Key(repository, o.branch, o.hash))
    {
      var j :| 0 <= j < |rs| && rs[j] == o;
      LessTotal(o, r);
      assert j < i && !Misses(rows, owner, repository, rs, j);
    }
  }

  /** So with a single resource the answer tells the three cases apart. */
  lemma UnlockOne(rows: Table, owner: Owner, repository: Repository, r: Resource,
                  result: LockResult<seq<Resource>>, after: Table)
    requires Unlocks(rows, owner, true, repository, SortDedup([r]), result, after)
    ensures
      var k := Key(repository, r.branch, r.hash);
      if k !in rows then result == Err(LockNotFound) && after == rows
      else if rows[k].owner != owner then result == Err(LockNotOwned) && after == rows
      else result == Ok([r]) && after == rows - {k}
  {
    var k := Key(repository, r.branch, r.hash);
    assert SortDedup([r]) == [r];
    assert KeyOf(repository, r) == k;
    UnlockSucceedsIff(rows, owner, repository, [r], result, after);
    if result.Err? {
      var blamed := UnlockBlames(rows, owner, repository, [r], result.error, after);
      BeforeTotal(r.description, r.description);
    } else {
      UnlockedRowsExactly(rows, owner, true, repository, [r], [r], after);
      assert after.Keys == rows.Keys - {k};
    }
  }

  // ---------------------------------------------------------------------------
  // Queries
  // ---------------------------------------------------------------------------

  /** What is reported of keys of one repository: for each of them, what its row says, in the fields it says it in. */
  lemma ReportedExactly(rows: Table, keys: set<Key>, data: seq<LockData>, repository: Repository)
    requires Reports(rows, keys, data) && forall k :: k in keys ==> k.repository == repository
    ensures forall d :: d in data <==>
              var k := Key(repository, d.resource.branch, d.resource.hash);
              k in keys && k in rows && rows[k] == Row(d.owner, d.resource.description, d.lockedAt)
    ensures |data| == |keys|
  {
    ReportsTell(rows, keys, data);
    forall d: LockData
      ensures (exists k :: k in keys && k in rows && Tells(d, k, rows[k])) <==>
              var k := Key(repository, d.resource.branch, d.resource.hash);
              k in keys && k in rows && rows[k] == Row(d.owner, d.resource.description, d.lockedAt)
    {
      var k := Key(repository, d.resource.branch, d.resource.hash);
      if k in keys && k in rows && rows[k] == Row(d.owner, d.resource.description, d.lockedAt) {
        assert Tells(d, k, rows[k]);
      }
    }
  }

  /** What is reported of any rows, whatever their repositories. */
  lemma ReportedAnywhere(rows: Table, query: LockQuery, data: seq<LockData>)
    requires Reports(rows, Selected(rows, query), data)
    ensures forall d :: d in data <==> exists repository ::
              var k := Key(repository, d.resource.branch, d.resource.hash);
              k in rows && Matches(query, k, rows[k]) && rows[k] == Row(d.owner, d.resource.description, d.lockedAt)
    ensures forall k :: k in rows && Matches(query, k, rows[k]) ==>
              LockData(Resource(k.branch, k.hash, rows[k].description), rows[k].owner, rows[k].lockedAt) in data
  {
    var keys := Selected(rows, query);
    ReportsTell(rows, keys, data);
    forall d: LockData
      ensures (exists k :: k in keys && k in rows && Tells(d, k, rows[k])) <==>
              exists repository ::
                var k := Key(repository, d.resource.branch, d.resource.hash);
                k in rows && Matches(query, k, rows[k]) && rows[k] == Row(d.owner, d.resource.description, d.lockedAt)
    {
      if k :| k in keys && k in rows && Tells(d, k, rows[k]) {
        assert k == Key(k.repository, d.resource.branch, d.resource.hash);
        assert rows[k] == Row(d.owner, d.resource.description, d.lockedAt);
      }
      if repository :|
          var k := Key(repository, d.resource.branch, d.resource.hash);
          k in rows && Matches(query, k, rows[k]) && rows[k] == Row(d.owner, d.resource.description, d.lockedAt) {
        assert Tells(d, Key(repository, d.resource.branch, d.resource.hash),
                     rows[Key(repository, d.resource.branch, d.resource.hash)]);
      }
    }
    forall k | k in rows && Matches(query, k, rows[k])
      ensures LockData(Resource(k.branch, k.hash, rows[k].description), rows[k].owner, rows[k].lockedAt) in data
    {
      assert k in keys;
      assert Tells(LockData(Resource(k.branch, k.hash, rows[k].description), rows[k].owner, rows[k].lockedAt), k,
        rows[k]);
    }
  }

  /** Each narrower query finds the part of a wider one that has the further property; the widest go by one column. */
  lemma NarrowerQueries(rows: Table, hash: Bytes, repository: Repository, branch: Bytes, owner: Owner,
                        description: Bytes, k: Key)
    ensures k in Selected(rows, ByHash(hash)) <==> k in rows && k.hash == hash
    ensures k in Selected(rows, ByOwner(owner)) <==> k in rows && rows[k].owner == owner
    ensures k in Selected(rows, ByRepository(repository)) <==> k in rows && k.repository == repository
    ensures Selected(rows, ByHashRepository(hash, repository)) ==
            Selected(rows, ByHash(hash)) * Selected(rows, ByRepository(repository))
    ensures Selected(rows, ByOwnerRepository(owner, repository)) ==
            Selected(rows, ByOwner(owner)) * Selected(rows, ByRepository(repository))
    ensures k in Selected(rows, ByRepositoryBranch(repository, branch)) <==>
            k in Selected(rows, ByRepository(repository)) && k.branch == branch
    ensures Selected(rows, ByHashRepositoryBranch(hash, repository, branch)) ==
            Selected(rows, ByHash(hash)) * Selected(rows, ByRepositoryBranch(repository, branch))
    ensures Selected(rows, ByOwnerRepositoryBranch(owner, repository, branch)) ==
            Selected(rows, ByOwner(owner)) * Selected(rows, ByRepositoryBranch(repository, branch))
    ensures k in Selected(rows, ByRepositoryBranchDescription(repository, branch, description)) <==>
            k in Selected(rows, ByRepositoryBranch(repository, branch)) && rows[k].description == description
  {
  }

  // ---------------------------------------------------------------------------
  // Locking, then asking
  // ---------------------------------------------------------------------------

  /** After a successful lock, what a query of the repository reports is what the lock reported, for the keys that had
      no row, and what the old row said, for those that had. */
  lemma LockThenQuery(rows: Table, q: Request, newly: seq<LockData>, after: Table, data: seq<LockData>)
    requires Locks(rows, q, Ok(newly), after)
    requires Reports(after, Selected(after, ByRepository(q.repository)), data)
    ensures forall d: LockData ::
              var k := Key(q.repository, d.resource.branch, d.resource.hash);
              d in data <==>
              if k in rows then rows[k] == Row(d.owner, d.resource.description, d.lockedAt) else d in newly
  {
    var keys := Selected(after, ByRepository(q.repository));
    ReportedExactly(after, keys, data, q.repository);
    forall d: LockData
      ensures
        var k := Key(q.repository, d.resource.branch, d.resource.hash);
        d in data <==> if k in rows then rows[k] == Row(d.owner, d.resource.description, d.lockedAt) else d in newly
    {
      NewRowsAreNewly(rows, q, newly, after, d);
    }
  }

  lemma NewRowsAreNewly(rows: Table, q: Request, newly: seq<LockData>, after: Table, d: LockData)
    requires Locks(rows, q, Ok(newly), after)
    ensures
      var k := Key(q.repository, d.resource.branch, d.resource.hash);
      k in after && after[k] == Row(d.owner, d.resource.description, d.lockedAt) <==>
      if k in rows then rows[k] == Row(d.owner, d.resource.description, d.lockedAt) else d in newly
  {
    var k := Key(q.repository, d.resource.branch, d.resource.hash);
    LockedRowsExactly(rows, q, newly, after, k);
    NewlyExactly(rows, q, newly, after);
    if k in after && k !in rows {
      var e :| e in newly && k == Key(q.repository, e.resource.branch, e.resource.hash)
               && after[k] == Row(q.owner, e.resource.description, q.now);
      if d in newly {
        BeforeTotal(d.resource.description, e.resource.description);
      }
    }
  }

  /** A status check of the places just locked reports every one of them: what the lock reported, for those that had
      no row, and what the old row said, for those the owner held before. */
  lemma LockThenCheck(rows: Table, q: Request, newly: seq<LockData>, after: Table, requested: seq<Resource>,
                      data: seq<LockData>)
    requires Locks(rows, q, Ok(newly), after) && q.resources == Batch(requested)
    requires Reports(after, Held(after, q.repository, requested), data)
    ensures forall d: LockData ::
              var k := Key(q.repository, d.resource.branch, d.resource.hash);
              d in data <==>
              if k !in rows then d in newly
              else rows[k] == Row(d.owner, d.resource.description, d.lockedAt) && d.owner == q.owner
                   && exists r :: r in requested && r.branch == d.resource.branch && r.hash == d.resource.hash
    ensures forall r :: r in requested ==>
              exists d :: d in data && d.owner == q.owner && d.resource.branch == r.branch && d.resource.hash == r.hash
  {
    var keys := Held(after, q.repository, requested);
    ReportedExactly(after, keys, data, q.repository);
    LockRefusedIff(rows, q, Ok(newly), after);
    NewlyExactly(rows, q, newly, after);
    forall k
      ensures k in keys <==> k in after && exists r :: r in requested && k == Key(q.repository, r.branch, r.hash)
    {
      if r :| r in requested && k == Key(q.repository, r.branch, r.hash) {
        assert KeyOf(q.repository, r) == k;
      }
    }
    forall d: LockData
      ensures
        var k := Key(q.repository, d.resource.branch, d.resource.hash);
        d in data <==>
        if k !in rows then d in newly
        else rows[k] == Row(d.owner, d.resource.description, d.lockedAt) && d.owner == q.owner
             && exists r :: r in requested && r.branch == d.resource.branch && r.hash == d.resource.hash
    {
      var k := Key(q.repository, d.resource.branch, d.resource.hash);
      NewRowsAreNewly(rows, q, newly, after, d);
      if d in newly {
        assert d.resource in requested && k == Key(q.repository, d.resource.branch, d.resource.hash);
      }
      if r :| r in requested && r.branch == d.resource.branch && r.hash == d.resource.hash {
        assert k == Key(q.repository, r.branch, r.hash) && r in q.resources;
      }
    }
    forall r | r in requested
      ensures exists d :: d in data && d.owner == q.owner && d.resource.branch == r.branch && d.resource.hash == r.hash
    {
      PlaceIsReported(rows, q, newly, after, requested, data, r);
    }
  }

  lemma PlaceIsReported(rows: Table, q: Request, newly: seq<LockData>, after: Table, requested: seq<Resource>,
                        data: seq<LockData>, r: Resource)
    requires Locks(rows, q, Ok(newly), after) && q.resources == Batch(requested) && r in requested
    requires Reports(after, Held(after, q.repository, requested), data)
    ensures exists d :: d in data && d.owner == q.owner && d.resource.branch == r.branch && d.resource.hash == r.hash
  {
    var k := KeyOf(q.repository, r);
    LockedRowsExactly(rows, q, newly, after, k);
    LockRefusedIff(rows, q, Ok(newly), after);
    assert r in q.resources && k == Key(q.repository, r.branch, r.hash);
    var d := LockData(Resource(r.branch, r.hash, after[k].description), after[k].owner, after[k].lockedAt);
    ReportedExactly(after, Held(after, q.repository, requested), data, q.repository);
    assert d in data;
  }
}
