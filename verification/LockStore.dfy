/** The lock store: one table keyed by repository, branch and hash. */
module LockStore {
  import opened ByteStrings
  import opened Outcomes

  type Owner(==, !new)
  type Repository(==, !new)

  datatype Resource = Resource(branch: Bytes, hash: Bytes, description: Bytes)

  datatype Key = Key(repository: Repository, branch: Bytes, hash: Bytes)

  datatype Row = Row(owner: Owner, description: Bytes, lockedAt: int)

  datatype LockData = LockData(resource: Resource, owner: Owner, lockedAt: int)

  type Table = map<Key, Row>

  datatype LockError = LockNotOwned | LockNotFound

  type LockResult<+T> = Outcome<T, LockError>

  function KeyOf(repository: Repository, r: Resource): Key {
    Key(repository, r.branch, r.hash)
  }

  // ---------------------------------------------------------------------------
  // Canonical order
  // ---------------------------------------------------------------------------

  /** Branch and hash first. */
  predicate PlaceBefore(a: Resource, b: Resource) {
    Before(a.branch, b.branch) || (a.branch == b.branch && Before(a.hash, b.hash))
  }

  predicate SamePlace(a: Resource, b: Resource) {
    a.branch == b.branch && a.hash == b.hash
  }

  /** Then the description. */
  predicate Less(a: Resource, b: Resource) {
    PlaceBefore(a, b) || (SamePlace(a, b) && Before(a.description, b.description))
  }

  lemma LessTotal(a: Resource, b: Resource)
    ensures a == b || Less(a, b) || Less(b, a)
    ensures !(Less(a, b) && Less(b, a)) && !Less(a, a)
    ensures SamePlace(a, b) || PlaceBefore(a, b) || PlaceBefore(b, a)
    ensures PlaceBefore(a, b) ==> !SamePlace(a, b) && !PlaceBefore(b, a)
  {
    BeforeTotal(a.branch, b.branch);
    BeforeTotal(a.hash, b.hash);
    BeforeTotal(a.description, b.description);
  }

  lemma LessTransitive(a: Resource, b: Resource, c: Resource)
    requires Less(a, b) && Less(b, c)
    ensures Less(a, c)
    ensures PlaceBefore(a, b) || PlaceBefore(b, c) ==> PlaceBefore(a, c)
  {
    if Before(a.branch, b.branch) && Before(b.branch, c.branch) {
      BeforeTransitive(a.branch, b.branch, c.branch);
    }
    if Before(a.hash, b.hash) && Before(b.hash, c.hash) {
      BeforeTransitive(a.hash, b.hash, c.hash);
    }
    if Before(a.description, b.description) && Before(b.description, c.description) {
      BeforeTransitive(a.description, b.description, c.description);
    }
  }

  ghost predicate Ordered(rs: seq<Resource>) {
    forall i, j :: 0 <= i < j < |rs| ==> Less(rs[i], rs[j])
  }

  function Insert(r: Resource, rs: seq<Resource>): (out: seq<Resource>)
    ensures forall q :: q in out <==> q == r || q in rs
  {
    if rs == [] then [r]
    else if r == rs[0] then rs
    else if Less(r, rs[0]) then [r] + rs
    else
      assert rs == [rs[0]] + rs[1..];
      [rs[0]] + Insert(r, rs[1..])
  }

  /** `sort` followed by `dedup`. */
  function SortDedup(rs: seq<Resource>): (out: seq<Resource>)
    ensures forall q :: q in out <==> q in rs
  {
    if rs == [] then []
    else
      assert rs == [rs[0]] + rs[1..];
      Insert(rs[0], SortDedup(rs[1..]))
  }

  lemma {:induction false} InsertOrdered(r: Resource, rs: seq<Resource>)
    requires Ordered(rs)
    ensures Ordered(Insert(r, rs))
    decreases |rs|
  {
    if rs != [] && r != rs[0] {
      LessTotal(r, rs[0]);
      if Less(r, rs[0]) {
        forall j | 0 < j < |rs|
          ensures Less(r, rs[j])
        {
          LessTransitive(r, rs[0], rs[j]);
        }
      } else {
        InsertOrdered(r, rs[1..]);
        forall q | q in Insert(r, rs[1..])
          ensures Less(rs[0], q)
        {
        }
      }
    }
  }

  lemma {:induction false} SortDedupOrdered(rs: seq<Resource>)
    ensures Ordered(SortDedup(rs))
    decreases |rs|
  {
    if rs != [] {
      SortDedupOrdered(rs[1..]);
      InsertOrdered(rs[0], SortDedup(rs[1..]));
    }
  }

  /** An ordered list is determined by its elements, so the canonical list forgets order and duplicates. */
  lemma {:induction false} OrderedUnique(a: seq<Resource>, b: seq<Resource>)
    requires Ordered(a) && Ordered(b)
    requires forall q :: q in a <==> q in b
    ensures a == b
    decreases |a|
  {
    assert a != [] ==> a[0] in b;
    assert b != [] ==> b[0] in a;
    if a != [] && b != [] {
      if a[0] != b[0] {
        var i :| 0 <= i < |b| && b[i] == a[0];
        var j :| 0 <= j < |a| && a[j] == b[0];
        LessTotal(a[0], b[0]);
      }
      assert a == [a[0]] + a[1..] && b == [b[0]] + b[1..];
      forall q
        ensures q in a[1..] <==> q in b[1..]
      {
        LessTotal(a[0], a[0]);
        assert a[0] !in a[1..] && b[0] !in b[1..];
        assert q in a[1..] ==> q in a;
        assert q in b[1..] ==> q in b;
      }
      OrderedUnique(a[1..], b[1..]);
    }
  }

  lemma SortDedupCanonical(a: seq<Resource>, b: seq<Resource>)
    requires forall q :: q in a <==> q in b
    ensures SortDedup(a) == SortDedup(b)
  {
    SortDedupOrdered(a);
    SortDedupOrdered(b);
    OrderedUnique(SortDedup(a), SortDedup(b));
  }

  // ---------------------------------------------------------------------------
  // Locking a batch
  // ---------------------------------------------------------------------------

  /** Who locks what where, and when. */
  datatype Request = Request(owner: Owner, repository: Repository, resources: set<Resource>, now: int)

  predicate Refused(rows: Table, q: Request) {
    exists r :: r in q.resources && KeyOf(q.repository, r) in rows && rows[KeyOf(q.repository, r)].owner != q.owner
  }

  /** The requested resource that gets the row of its key: the key is free and no smaller one names it. */
  predicate Chosen(rows: Table, q: Request, r: Resource) {
    && r in q.resources
    && KeyOf(q.repository, r) !in rows
    && forall o :: o in q.resources && SamePlace(o, r) ==> o == r || Less(r, o)
  }

  predicate KeyOrdered(data: seq<LockData>) {
    forall i, j :: 0 <= i < j < |data| ==> PlaceBefore(data[i].resource, data[j].resource)
  }

  function DataFor(q: Request, r: Resource): LockData {
    LockData(r, q.owner, q.now)
  }

  function RowFor(q: Request, r: Resource): Row {
    Row(q.owner, r.description, q.now)
  }

  /** The rows chosen, in key order. */
  ghost predicate Lists(rows: Table, q: Request, newly: seq<LockData>) {
    KeyOrdered(newly) && forall d :: d in newly <==> Chosen(rows, q, d.resource) && d == DataFor(q, d.resource)
  }

  ghost predicate ChosenFor(rows: Table, q: Request, k: Key, row: Row) {
    exists r :: Chosen(rows, q, r) && k == KeyOf(q.repository, r) && row == RowFor(q, r)
  }

  /** Old rows stay, every requested key has a row, and every new row is a chosen one. */
  ghost predicate Extends(rows: Table, q: Request, after: Table) {
    && (forall k :: k in rows ==> k in after && after[k] == rows[k])
    && (forall r :: r in q.resources ==> KeyOf(q.repository, r) in after)
    && (forall k :: k in after && k !in rows ==> ChosenFor(rows, q, k, after[k]))
  }

  /** `after` is `rows` with one new row for each free requested key, and `newly` lists these rows in key order. */
  ghost predicate Grants(rows: Table, q: Request, newly: seq<LockData>, after: Table) {
    Lists(rows, q, newly) && Extends(rows, q, after)
  }

  /** The contract of locking a batch: all or nothing, decided by the owners of the rows already there. */
  ghost predicate Locks(rows: Table, q: Request, result: LockResult<seq<LockData>>, after: Table) {
    if Refused(rows, q) then result == Err(LockNotOwned) && after == rows
    else result.Ok? && Grants(rows, q, result.value, after)
  }

  lemma GrantNothing(rows: Table, q: Request)
    requires q.resources == {}
    ensures Grants(rows, q, [], rows)
  {
  }

  function More(q: Request, r: Resource): Request {
    q.(resources := q.resources + {r})
  }

  /** Adding a resource greater than all others chooses it if its place is new, and unchooses nothing. */
  lemma ChosenGrows(rows: Table, q: Request, r: Resource, o: Resource)
    requires forall x :: x in q.resources ==> Less(x, r)
    ensures Chosen(rows, More(q, r), o) <==>
            || Chosen(rows, q, o)
            || (o == r && KeyOf(q.repository, r) !in rows && forall x :: x in q.resources ==> !SamePlace(x, r))
  {
    LessTotal(r, r);
    LessTotal(o, r);
    if o == r {
      forall x | x in q.resources
        ensures x != r && !Less(r, x)
      {
        LessTotal(x, r);
      }
    }
  }

  /** The place is new exactly when the table so far has no row for it. */
  lemma PlaceIsNew(rows: Table, q: Request, mid: Table, r: Resource)
    requires Extends(rows, q, mid)
    ensures KeyOf(q.repository, r) !in mid <==>
            KeyOf(q.repository, r) !in rows && forall x :: x in q.resources ==> !SamePlace(x, r)
  {
    var k := KeyOf(q.repository, r);
    if k in mid && k !in rows {
      var o :| Chosen(rows, q, o) && k == KeyOf(q.repository, o);
      assert SamePlace(o, r);
    }
    if x :| x in q.resources && SamePlace(x, r) {
      assert KeyOf(q.repository, x) == k;
    }
  }

  lemma TableGrows(rows: Table, q: Request, mid: Table, r: Resource)
    requires Extends(rows, q, mid)
    requires forall x :: x in q.resources ==> Less(x, r)
    ensures Extends(rows, More(q, r), if KeyOf(q.repository, r) in mid then mid
        else mid[KeyOf(q.repository, r) := RowFor(q, r)])
  {
    var k := KeyOf(q.repository, r);
    var after := if k in mid then mid else mid[k := RowFor(q, r)];
    PlaceIsNew(rows, q, mid, r);
    forall x | x in after && x !in rows
      ensures ChosenFor(rows, More(q, r), x, after[x])
    {
      if x in mid {
        var o :| Chosen(rows, q, o) && x == KeyOf(q.repository, o) && mid[x] == RowFor(q, o);
        ChosenGrows(rows, q, r, o);
        assert RowFor(More(q, r), o) == RowFor(q, o);
      } else {
        ChosenGrows(rows, q, r, r);
        assert RowFor(More(q, r), r) == RowFor(q, r);
      }
    }
  }

  lemma ListGrows(rows: Table, q: Request, newly: seq<LockData>, mid: Table, r: Resource)
    requires Grants(rows, q, newly, mid)
    requires forall x :: x in q.resources ==> Less(x, r)
    ensures Lists(rows, More(q, r), if KeyOf(q.repository, r) in mid then newly else newly + [DataFor(q, r)])
  {
    PlaceIsNew(rows, q, mid, r);
    var isNew := KeyOf(q.repository, r) !in mid;
    var list := if isNew then newly + [DataFor(q, r)] else newly;
    forall d
      ensures d in list <==> Chosen(rows, More(q, r), d.resource) && d == DataFor(More(q, r), d.resource)
    {
      ChosenGrows(rows, q, r, d.resource);
      assert d in list <==> d in newly || (isNew && d == DataFor(q, r));
    }
    forall i | 0 <= i < |newly| && isNew
      ensures PlaceBefore(newly[i].resource, r)
    {
      assert newly[i] in newly;
    }
  }

  /** One more resource, greater than all before it. */
  lemma GrantStep(rows: Table, q: Request, newly: seq<LockData>, mid: Table, r: Resource)
    requires Grants(rows, q, newly, mid)
    requires forall x :: x in q.resources ==> Less(x, r)
    ensures
      var k := KeyOf(q.repository, r);
      if k in mid then Grants(rows, More(q, r), newly, mid)
      else Grants(rows, More(q, r), newly + [DataFor(q, r)], mid[k := RowFor(q, r)])
  {
    TableGrows(rows, q, mid, r);
    ListGrows(rows, q, newly, mid, r);
  }

  lemma StillNotRefused(rows: Table, q: Request, r: Resource)
    requires !Refused(rows, q)
    requires KeyOf(q.repository, r) in rows ==> rows[KeyOf(q.repository, r)].owner == q.owner
    ensures !Refused(rows, More(q, r))
  {
  }

  lemma {:induction false} KeyOrderedUnique(a: seq<LockData>, b: seq<LockData>)
    requires KeyOrdered(a) && KeyOrdered(b)
    requires forall d :: d in a <==> d in b
    ensures a == b
    decreases |a|
  {
    assert a != [] ==> a[0] in b;
    assert b != [] ==> b[0] in a;
    if a != [] && b != [] {
      if a[0] != b[0] {
        var i :| 0 <= i < |b| && b[i] == a[0];
        var j :| 0 <= j < |a| && a[j] == b[0];
        LessTotal(a[0].resource, b[0].resource);
      }
      assert a == [a[0]] + a[1..] && b == [b[0]] + b[1..];
      LessTotal(a[0].resource, a[0].resource);
      assert a[0] !in a[1..] && b[0] !in b[1..];
      forall d
        ensures d in a[1..] <==> d in b[1..]
      {
        assert d in a[1..] ==> d in a;
        assert d in b[1..] ==> d in b;
      }
      KeyOrderedUnique(a[1..], b[1..]);
    }
  }

  /** The outcome is a function of the table and of the set of resources: their order and duplicates do not matter. */
  lemma LocksDeterministic(rows: Table, q: Request, r1: LockResult<seq<LockData>>, a1: Table,
                           r2: LockResult<seq<LockData>>, a2: Table)
    requires Locks(rows, q, r1, a1) && Locks(rows, q, r2, a2)
    ensures r1 == r2 && a1 == a2
  {
    if !Refused(rows, q) {
      KeyOrderedUnique(r1.value, r2.value);
      forall k
        ensures k in a1 <==> k in a2
        ensures k in a1 ==> a1[k] == a2[k]
      {
        if k in a1 {
          SameRow(rows, q, a1, a2, k);
        }
        if k in a2 {
          SameRow(rows, q, a2, a1, k);
        }
      }
    }
  }

  lemma SameRow(rows: Table, q: Request, a1: Table, a2: Table, k: Key)
    requires Extends(rows, q, a1) && Extends(rows, q, a2) && k in a1
    ensures k in a2 && a1[k] == a2[k]
  {
    if k !in rows {
      assert ChosenFor(rows, q, k, a1[k]);
      var r :| Chosen(rows, q, r) && k == KeyOf(q.repository, r) && a1[k] == RowFor(q, r);
      assert ChosenFor(rows, q, k, a2[k]);
      var o :| Chosen(rows, q, o) && k == KeyOf(q.repository, o) && a2[k] == RowFor(q, o);
      assert SamePlace(r, o);
      LessTotal(r, o);
    }
  }

  /** Locking the same resources again succeeds, reports nothing new and changes nothing. */
  lemma LockAgain(rows: Table, q: Request, newly: seq<LockData>, after: Table)
    requires !Refused(rows, q) && Grants(rows, q, newly, after)
    ensures Locks(after, q, Ok([]), after)
  {
    forall r | r in q.resources
      ensures after[KeyOf(q.repository, r)].owner == q.owner
    {
      var k := KeyOf(q.repository, r);
      if k !in rows {
        assert ChosenFor(rows, q, k, after[k]);
      }
    }
  }

  // ---------------------------------------------------------------------------
  // Unlocking a batch
  // ---------------------------------------------------------------------------

  function Without(rows: Table, repository: Repository, rs: seq<Resource>): Table {
    rows - (set r | r in rs :: KeyOf(repository, r))
  }

  predicate OwnedBy(rows: Table, owner: Owner, k: Key) {
    k in rows && rows[k].owner == owner
  }

  /** A validated delete of the i-th resource hits no row: not there, not the caller's, or deleted just before. */
  predicate Misses(rows: Table, owner: Owner, repository: Repository, rs: seq<Resource>, i: nat)
    requires i < |rs|
  {
    || !OwnedBy(rows, owner, KeyOf(repository, rs[i]))
    || exists j :: 0 <= j < i && SamePlace(rs[j], rs[i])
  }

  function MissError(rows: Table, owner: Owner, k: Key): LockError {
    if k in rows && rows[k].owner != owner then LockNotOwned else LockNotFound
  }

  ghost predicate FirstMiss(rows: Table, owner: Owner, repository: Repository, rs: seq<Resource>, i: nat) {
    && i < |rs| && Misses(rows, owner, repository, rs, i)
    && forall j :: 0 <= j < i ==> !Misses(rows, owner, repository, rs, j)
  }

  /** The contract of unlocking the canonical list `rs`: all or nothing, with the error of the first resource whose
      delete hits no row; without validation nothing fails. */
  ghost predicate Unlocks(rows: Table, owner: Owner, validate: bool, repository: Repository, rs: seq<Resource>,
                          result: LockResult<seq<Resource>>, after: Table)
  {
    if validate && exists i :: 0 <= i < |rs| && Misses(rows, owner, repository, rs, i) then
      exists i: nat :: FirstMiss(rows, owner, repository, rs, i)
        && result == Err(MissError(rows, owner, KeyOf(repository, rs[i]))) && after == rows
    else
      result == Ok(rs) && after == Without(rows, repository, rs)
  }

  predicate AllOwned(rows: Table, owner: Owner, repository: Repository, resources: seq<Resource>) {
    forall r :: r in resources ==> OwnedBy(rows, owner, KeyOf(repository, r))
  }

  predicate NoAliases(resources: seq<Resource>) {
    forall r, o :: r in resources && o in resources && SamePlace(r, o) ==> r == o
  }

  predicate NoneMisses(rows: Table, owner: Owner, repository: Repository, rs: seq<Resource>) {
    forall i :: 0 <= i < |rs| ==> !Misses(rows, owner, repository, rs, i)
  }

  lemma NoMissMeansOwned(rows: Table, owner: Owner, repository: Repository, rs: seq<Resource>)
    requires NoneMisses(rows, owner, repository, rs)
    ensures AllOwned(rows, owner, repository, rs) && NoAliases(rs)
  {
    forall r | r in rs
      ensures OwnedBy(rows, owner, KeyOf(repository, r))
    {
      var i :| 0 <= i < |rs| && rs[i] == r;
      assert !Misses(rows, owner, repository, rs, i);
    }
    forall r, o | r in rs && o in rs && SamePlace(r, o)
      ensures r == o
    {
      var i :| 0 <= i < |rs| && rs[i] == r;
      var j :| 0 <= j < |rs| && rs[j] == o;
      assert !Misses(rows, owner, repository, rs, i) && !Misses(rows, owner, repository, rs, j);
    }
  }

  lemma OwnedMeansNoMiss(rows: Table, owner: Owner, repository: Repository, rs: seq<Resource>)
    requires Ordered(rs) && AllOwned(rows, owner, repository, rs) && NoAliases(rs)
    ensures NoneMisses(rows, owner, repository, rs)
  {
    forall i, j | 0 <= j < i < |rs|
      ensures !SamePlace(rs[j], rs[i])
    {
      LessTotal(rs[j], rs[i]);
    }
  }

  /** A validated unlock succeeds exactly when the caller owns every key and no two of the distinct resources name
      the same one. */
  lemma UnlockSucceedsIff(rows: Table, owner: Owner, repository: Repository, resources: seq<Resource>,
                          result: LockResult<seq<Resource>>, after: Table)
    requires Unlocks(rows, owner, true, repository, SortDedup(resources), result, after)
    ensures result.Ok? <==> AllOwned(rows, owner, repository, resources) && NoAliases(resources)
  {
    var rs := SortDedup(resources);
    SortDedupOrdered(resources);
    assert AllOwned(rows, owner, repository, resources) == AllOwned(rows, owner, repository, rs);
    assert NoAliases(resources) == NoAliases(rs);
    if NoneMisses(rows, owner, repository, rs) {
      NoMissMeansOwned(rows, owner, repository, rs);
    } else if AllOwned(rows, owner, repository, rs) && NoAliases(rs) {
      OwnedMeansNoMiss(rows, owner, repository, rs);
    }
  }

  function ResourcesOf(data: seq<LockData>): seq<Resource> {
    seq(|data|, i requires 0 <= i < |data| => data[i].resource)
  }

  lemma ReportedAreChosen(rows: Table, q: Request, newly: seq<LockData>, r: Resource)
    requires Lists(rows, q, newly)
    ensures r in ResourcesOf(newly) <==> Chosen(rows, q, r)
  {
    var batch := ResourcesOf(newly);
    if Chosen(rows, q, r) {
      assert DataFor(q, r) in newly;
      var i :| 0 <= i < |newly| && newly[i] == DataFor(q, r);
      assert batch[i] == r;
    }
    if r in batch {
      var i :| 0 <= i < |batch| && batch[i] == r;
      assert newly[i] in newly;
    }
  }

  lemma ReportedCanBeUnlocked(rows: Table, q: Request, newly: seq<LockData>, after: Table)
    requires Grants(rows, q, newly, after)
    ensures AllOwned(after, q.owner, q.repository, ResourcesOf(newly)) && NoAliases(ResourcesOf(newly))
  {
    forall r | r in ResourcesOf(newly)
      ensures OwnedBy(after, q.owner, KeyOf(q.repository, r))
    {
      ReportedAreChosen(rows, q, newly, r);
      assert ChosenFor(rows, q, KeyOf(q.repository, r), after[KeyOf(q.repository, r)]);
    }
    forall r, o | r in ResourcesOf(newly) && o in ResourcesOf(newly) && SamePlace(r, o)
      ensures r == o
    {
      ReportedAreChosen(rows, q, newly, r);
      ReportedAreChosen(rows, q, newly, o);
      LessTotal(r, o);
    }
  }

  /** Unlocking what a lock reported as newly locked, as the same owner, succeeds and restores the table. */
  lemma LockThenUnlock(rows: Table, q: Request, newly: seq<LockData>, after: Table, result: LockResult<seq<Resource>>,
                       final: Table)
    requires Grants(rows, q, newly, after)
    requires Unlocks(after, q.owner, true, q.repository, SortDedup(ResourcesOf(newly)), result, final)
    ensures result.Ok? && final == rows
  {
    var batch := ResourcesOf(newly);
    ReportedCanBeUnlocked(rows, q, newly, after);
    UnlockSucceedsIff(after, q.owner, q.repository, batch, result, final);
    forall k | k in after
      ensures k in rows <==> !exists r :: r in SortDedup(batch) && k == KeyOf(q.repository, r)
    {
      if k !in rows {
        assert ChosenFor(rows, q, k, after[k]);
        var r :| Chosen(rows, q, r) && k == KeyOf(q.repository, r);
        ReportedAreChosen(rows, q, newly, r);
        assert r in SortDedup(batch);
      } else if r :| r in SortDedup(batch) && k == KeyOf(q.repository, r) {
        ReportedAreChosen(rows, q, newly, r);
      }
    }
    assert final == rows;
  }

  /** Unlocking the batch that was locked, rather than what was reported, fails when two of its entries differ only
      in their description, although locking that batch succeeded. */
  lemma BatchWithAliasesCannotBeUnlocked(rows: Table, owner: Owner, repository: Repository, r: Resource, o: Resource,
                                         now: int, newly: seq<LockData>, after: Table,
                                         result: LockResult<seq<Resource>>, final: Table)
    requires SamePlace(r, o) && Less(r, o) && KeyOf(repository, r) !in rows
    requires Locks(rows, Request(owner, repository, {r, o}, now), Ok(newly), after)
    requires Unlocks(after, owner, true, repository, SortDedup([r, o]), result, final)
    ensures result == Err(LockNotFound) && final == after
  {
    var q := Request(owner, repository, {r, o}, now);
    var k := KeyOf(repository, r);
    assert ChosenFor(rows, q, k, after[k]);
    LessTotal(r, o);
    assert Ordered([r, o]);
    SortDedupOrdered([r, o]);
    OrderedUnique(SortDedup([r, o]), [r, o]);
    assert !Misses(after, owner, repository, [r, o], 0);
    assert Misses(after, owner, repository, [r, o], 1);
  }

  // ---------------------------------------------------------------------------
  // Queries
  // ---------------------------------------------------------------------------

  datatype LockQuery =
    | ByHash(hash: Bytes)
    | ByHashRepository(hash: Bytes, repository: Repository)
    | ByHashRepositoryBranch(hash: Bytes, repository: Repository, branch: Bytes)
    | ByOwner(owner: Owner)
    | ByOwnerRepository(owner: Owner, repository: Repository)
    | ByOwnerRepositoryBranch(owner: Owner, repository: Repository, branch: Bytes)
    | ByRepository(repository: Repository)
    | ByRepositoryBranch(repository: Repository, branch: Bytes)
    | ByRepositoryBranchDescription(repository: Repository, branch: Bytes, description: Bytes)

  predicate Matches(query: LockQuery, k: Key, row: Row) {
    match query
    case ByHash(hash) => k.hash == hash
    case ByHashRepository(hash, repository) => k.hash == hash && k.repository == repository
    case ByHashRepositoryBranch(hash, repository, branch) => k == Key(repository, branch, hash)
    case ByOwner(owner) => row.owner == owner
    case ByOwnerRepository(owner, repository) => row.owner == owner && k.repository == repository
    case ByOwnerRepositoryBranch(owner, repository, branch) =>
      row.owner == owner && k.repository == repository && k.branch == branch
    case ByRepository(repository) => k.repository == repository
    case ByRepositoryBranch(repository, branch) => k.repository == repository && k.branch == branch
    case ByRepositoryBranchDescription(repository, branch, description) =>
      k.repository == repository && k.branch == branch && row.description == description
  }

  function Selected(rows: Table, query: LockQuery): set<Key> {
    set k | k in rows && Matches(query, k, rows[k])
  }

  function DataOf(k: Key, row: Row): LockData {
    LockData(Resource(k.branch, k.hash, row.description), row.owner, row.lockedAt)
  }

  /** `data` reports each of these rows once, in some order. */
  ghost predicate Reports(rows: Table, keys: set<Key>, data: seq<LockData>) {
    exists order :: ReportsInOrder(rows, keys, data, order)
  }

  ghost predicate ReportsInOrder(rows: Table, keys: set<Key>, data: seq<LockData>, order: seq<Key>) {
    && |order| == |data|
    && (set k | k in order) == keys
    && (forall i, j :: 0 <= i < j < |order| ==> order[i] != order[j])
    && forall i :: 0 <= i < |data| ==> order[i] in rows && data[i] == DataOf(order[i], rows[order[i]])
  }

  /** `d` says what the row under `k` says. */
  predicate Tells(d: LockData, k: Key, row: Row) {
    && d.resource.branch == k.branch && d.resource.hash == k.hash && d.resource.description == row.description
    && d.owner == row.owner && d.lockedAt == row.lockedAt
  }

  lemma ReportsTell(rows: Table, keys: set<Key>, data: seq<LockData>)
    requires Reports(rows, keys, data)
    ensures forall d :: d in data <==> exists k :: k in keys && k in rows && Tells(d, k, rows[k])
    ensures |data| == |keys|
  {
    var order :| ReportsInOrder(rows, keys, data, order);
    assert forall k :: k in keys <==> k in order;
    forall d
      ensures d in data <==> exists k :: k in keys && k in rows && Tells(d, k, rows[k])
    {
      if d in data {
        var i :| 0 <= i < |data| && data[i] == d;
        assert order[i] in keys && Tells(d, order[i], rows[order[i]]);
      }
      if k :| k in keys && k in rows && Tells(d, k, rows[k]) {
        var i :| 0 <= i < |order| && order[i] == k;
        assert data[i] == d;
      }
    }
    DistinctCount(order);
  }

  lemma {:induction false} DistinctCount(order: seq<Key>)
    requires forall i, j :: 0 <= i < j < |order| ==> order[i] != order[j]
    ensures |set k | k in order| == |order|
  {
    if order != [] {
      var n := |order| - 1;
      DistinctCount(order[..n]);
      assert order == order[..n] + [order[n]];
      assert (set k | k in order) == (set k | k in order[..n]) + {order[n]};
    }
  }

  /** The locked ones among the requested places. */
  function Held(rows: Table, repository: Repository, resources: seq<Resource>): set<Key> {
    set r | r in resources && KeyOf(repository, r) in rows :: KeyOf(repository, r)
  }

  /** `unnest` of two arrays of one length: the pair stands at some index. */
  predicate Paired(branches: seq<Bytes>, hashes: seq<Bytes>, b: Bytes, h: Bytes)
    requires |branches| == |hashes|
  {
    exists i :: 0 <= i < |branches| && branches[i] == b && hashes[i] == h
  }

  lemma PairedGrows(branches: seq<Bytes>, hashes: seq<Bytes>, b: Bytes, h: Bytes)
    requires |branches| == |hashes|
    ensures forall x, y :: Paired(branches + [b], hashes + [h], x, y) <==>
        Paired(branches, hashes, x, y) || (x == b && y == h)
  {
    var bs, hs := branches + [b], hashes + [h];
    assert bs[|branches|] == b && hs[|branches|] == h;
    forall x, y | Paired(branches, hashes, x, y)
      ensures Paired(bs, hs, x, y)
    {
      var i :| 0 <= i < |branches| && branches[i] == x && hashes[i] == y;
      assert bs[i] == x && hs[i] == y;
    }
  }

  /** A status check is the disjoint union of one exact query for each place requested, and each such query finds at
      most one row; descriptions, duplicates and order play no part. */
  lemma StatusIsUnionOfQueries(rows: Table, repository: Repository, resources: seq<Resource>, k: Key)
    ensures k in Held(rows, repository, resources) <==>
            exists r :: r in resources && k in Selected(rows, ByHashRepositoryBranch(r.hash, repository, r.branch))
    ensures forall r, o ::
              (r in resources && o in resources
               && k in Selected(rows, ByHashRepositoryBranch(r.hash, repository, r.branch))
               && k in Selected(rows, ByHashRepositoryBranch(o.hash, repository, o.branch))) ==>
                SamePlace(r, o)
    ensures forall r :: r in resources ==> |Selected(rows, ByHashRepositoryBranch(r.hash, repository, r.branch))| <= 1
  {
    if k in Held(rows, repository, resources) {
      var r :| r in resources && k == KeyOf(repository, r);
      assert k in Selected(rows, ByHashRepositoryBranch(r.hash, repository, r.branch));
    }
    forall r | r in resources
      ensures |Selected(rows, ByHashRepositoryBranch(r.hash, repository, r.branch))| <= 1
    {
      var found := Selected(rows, ByHashRepositoryBranch(r.hash, repository, r.branch));
      if KeyOf(repository, r) in found {
        assert found == {KeyOf(repository, r)};
      } else {
        assert found == {};
      }
    }
  }

  // ---------------------------------------------------------------------------
  // The store
  // ---------------------------------------------------------------------------

  ghost function Batch(rs: seq<Resource>): set<Resource> {
    set r | r in rs
  }

  class PgLockStore {
    var rows: Table

    constructor ()
      ensures rows == map[]
    {
      rows := map[];
    }

    method LockResources(owner: Owner, repository: Repository, requested: seq<Resource>, now: int)
      returns (result: LockResult<seq<LockData>>)
      modifies this
      ensures Locks(old(rows), Request(owner, repository, Batch(requested), now), result, rows)
    {
      var resources := SortDedup(requested);
      SortDedupOrdered(requested);
      var txn := rows;
      var newly: seq<LockData> := [];
      ghost var q := Request(owner, repository, {}, now);
      GrantNothing(rows, q);
      for i := 0 to |resources|
        invariant rows == old(rows)
        invariant q == Request(owner, repository, Batch(resources[..i]), now)
        invariant Grants(rows, q, newly, txn)
        invariant !Refused(rows, q)
      {
        var resource := resources[i];
        var key := KeyOf(repository, resource);
        GrantStep(rows, q, newly, txn, resource);
        if key !in txn {
          txn := txn[key := Row(owner, resource.description, now)];
          newly := newly + [LockData(resource, owner, now)];
        } else if txn[key].owner != owner {
          assert key !in rows ==> ChosenFor(rows, q, key, txn[key]);
          assert resource in requested;
          return Err(LockNotOwned);
        } else {
          assert key in rows ==> txn[key] == rows[key];
        }
        StillNotRefused(rows, q, resource);
        q := More(q, resource);
        assert Batch(resources[..i + 1]) == Batch(resources[..i]) + {resource};
      }
      assert Batch(resources[..|resources|]) == Batch(requested);
      rows := txn;
      result := Ok(newly);
    }

    method UnlockResources(owner: Owner, validateUser: bool, repository: Repository, requested: seq<Resource>)
      returns (result: LockResult<seq<Resource>>)
      modifies this
      ensures Unlocks(old(rows), owner, validateUser, repository, SortDedup(requested), result, rows)
    {
      var resources := SortDedup(requested);
      SortDedupOrdered(requested);
      var txn := rows;
      for i := 0 to |resources|
        invariant rows == old(rows)
        invariant txn == Without(rows, repository, resources[..i])
        invariant validateUser ==> forall j :: 0 <= j < i ==> !Misses(rows, owner, repository, resources, j)
      {
        var key := KeyOf(repository, resources[i]);
        assert resources[..i + 1] == resources[..i] + [resources[i]];
        AlreadyDeleted(rows, repository, resources, i);
        if validateUser {
          if key in txn && txn[key].owner == owner {
            txn := txn - {key};
          } else {
            assert FirstMiss(rows, owner, repository, resources, i);
            if j :| 0 <= j < i && SamePlace(resources[j], resources[i]) {
              assert !Misses(rows, owner, repository, resources, j) && KeyOf(repository, resources[j]) == key;
            }
            return Err(if key in txn then LockNotOwned else LockNotFound);
          }
        } else {
          txn := txn - {key};
        }
      }
      assert resources[..|resources|] == resources;
      rows := txn;
      result := Ok(resources);
    }

    method Fetch(keys: set<Key>) returns (data: seq<LockData>)
      requires forall k :: k in keys ==> k in rows
      ensures Reports(rows, keys, data)
    {
      ghost var order: seq<Key> := [];
      data := [];
      var pending := keys;
      while pending != {}
        invariant pending <= keys
        invariant ReportsInOrder(rows, keys - pending, data, order)
        decreases pending
      {
        var k :| k in pending;
        pending := pending - {k};
        assert k !in order;
        assert keys - pending == (keys - pending - {k}) + {k};
        assert (set x | x in order + [k]) == (set x | x in order) + {k};
        data, order := data + [DataOf(k, rows[k])], order + [k];
      }
      assert keys - pending == keys;
    }

    method QueryLocks(query: LockQuery) returns (data: seq<LockData>)
      ensures Reports(rows, Selected(rows, query), data)
      ensures forall d :: d in data <==> exists k :: k in rows && Matches(query, k, rows[k]) && Tells(d, k, rows[k])
    {
      data := Fetch(Selected(rows, query));
      ReportsTell(rows, Selected(rows, query), data);
      assert forall k :: k in Selected(rows, query) <==> k in rows && Matches(query, k, rows[k]);
    }

    /** One pass over the deduplicated set, in an order of its own, fills both parameter arrays of the statement. */
    method CheckLocksStatus(repository: Repository, requested: seq<Resource>) returns (data: seq<LockData>)
      ensures Reports(rows, Held(rows, repository, requested), data)
      ensures forall d :: d in data <==> exists r ::
          && r in requested && Key(repository, r.branch, r.hash) in rows
          && Tells(d, Key(repository, r.branch, r.hash), rows[Key(repository, r.branch, r.hash)])
    {
      var pending := set r | r in requested;
      var branches: seq<Bytes>, hashes: seq<Bytes> := [], [];
      while pending != {}
        invariant |branches| == |hashes|
        invariant pending <= set r | r in requested
        invariant forall r :: r in requested && r !in pending ==> Paired(branches, hashes, r.branch, r.hash)
        invariant forall b, h :: Paired(branches, hashes, b, h) ==>
            exists r :: r in requested && b == r.branch && h == r.hash
        decreases pending
      {
        var r :| r in pending;
        pending := pending - {r};
        PairedGrows(branches, hashes, r.branch, r.hash);
        branches, hashes := branches + [r.branch], hashes + [r.hash];
      }
      var keys := set k | k in rows && k.repository == repository && Paired(branches, hashes, k.branch, k.hash);
      assert forall r :: r in requested && KeyOf(repository, r) in rows ==> KeyOf(repository, r) in keys;
      assert keys == Held(rows, repository, requested);
      data := Fetch(keys);
      ReportsTell(rows, keys, data);
    }
  }

  /** In the middle of a batch a row is gone exactly when it never was or an earlier resource named it. */
  lemma AlreadyDeleted(rows: Table, repository: Repository, rs: seq<Resource>, i: nat)
    requires i < |rs|
    ensures
      KeyOf(repository, rs[i]) in Without(rows, repository, rs[..i]) <==>
      KeyOf(repository, rs[i]) in rows && forall j :: 0 <= j < i ==> !SamePlace(rs[j], rs[i])
  {
    if j :| 0 <= j < i && SamePlace(rs[j], rs[i]) {
      assert rs[j] in rs[..i] && KeyOf(repository, rs[j]) == KeyOf(repository, rs[i]);
    }
  }
}
