/** What the mutable store's operations come to, said of what they are given and what they answer. */
module MutableLaws {
  import opened ByteStrings
  import opened Outcomes
  import opened MutableStore

  /** The operation writes neither this repository, nor this type, nor a key with these bytes after the first. */
  predicate Apart(op: Op, repository: Repository, key: Hash, keyType: KeyType) {
    || op.Load? || op.List?
    || op.repository != repository || op.keyType != keyType || op.key[1..] != key[1..]
  }

  /** What a load answers for a value. */
  function Answer(value: Hash): Result<Hash> {
    if value == ZERO then Err(AddressNotFound) else Ok(value)
  }

  lemma ApartKeepsLoad(t: Table, op: Op, repository: Repository, key: Hash, keyType: KeyType)
    requires WellFormed(t) && Apart(op, repository, key, keyType)
    ensures TableReply(TableAfter(t, op), Load(repository, key, keyType)) ==
            TableReply(t, Load(repository, key, keyType))
  {
    if !op.Load? && !op.List? {
      TypedKeyExactly(op.key, op.keyType, key, keyType);
    }
  }

  /** Whatever byte 0 of the key was in either call. */
  lemma StoreThenLoad(t: Table, repository: Repository, stored: Hash, value: Hash, keyType: KeyType, key: Hash)
    requires WellFormed(t) && stored[1..] == key[1..]
    ensures TableReply(TableAfter(t, Store(repository, stored, value, keyType)), Load(repository, key, keyType)) ==
            Loaded(Answer(value))
  {
    TypedKeyExactly(stored, keyType, key, keyType);
  }

  /** A swap reports what a load would have found, zero for nothing; a load then finds the new value exactly if that was
      the expected one, and what it found before otherwise. */
  lemma SwapThenLoad(t: Table, repository: Repository, swapped: Hash, expected: Hash, value: Hash, keyType: KeyType,
                     key: Hash)
    requires WellFormed(t) && swapped[1..] == key[1..]
    ensures
      var swap, load := CompareAndSwap(repository, swapped, expected, value, keyType), Load(repository, key, keyType);
      var prior := TableReply(t, swap).prior;
      && TableReply(t, load) == Loaded(Answer(prior))
      && TableReply(TableAfter(t, swap), load) == Loaded(Answer(if prior == expected then value else prior))
  {
    TypedKeyExactly(swapped, keyType, key, keyType);
  }

  /** A list has exactly the pairs that loads of its type find, each key with the type as its first byte; the list of
      the untyped type has none. */
  lemma ListsWhatLoads(t: Table, repository: Repository, keyType: KeyType, p: Bytes, value: Hash)
    requires WellFormed(t)
    ensures (p, value) in TableReply(t, List(repository, keyType)).pairs <==>
            && keyType != UNTYPED
            && exists key: Hash :: p == [keyType] + key[1..]
                 && TableReply(t, Load(repository, key, keyType)) == Loaded(Ok(value))
  {
    if keyType != UNTYPED {
      if (p, value) in TableList(t, repository, keyType) {
        RangeIsType(p, keyType);
        TypedKeyExactly(p, keyType, p, keyType);
        assert p[0 := keyType] == p;
        assert TableReply(t, Load(repository, p, keyType)) == Loaded(Ok(value));
      }
      if key: Hash :| p == [keyType] + key[1..] && TableReply(t, Load(repository, key, keyType)) == Loaded(Ok(value)) {
        TypedKeyExactly(key, keyType, key, keyType);
        RangeIsType(p, keyType);
        assert Cell(repository, p) in Selected(t, repository, keyType);
      }
    }
  }

  lemma StoreThenList(t: Table, repository: Repository, key: Hash, value: Hash, keyType: KeyType)
    requires WellFormed(t) && keyType != UNTYPED && value != ZERO
    ensures ([keyType] + key[1..], value) in
              TableReply(TableAfter(t, Store(repository, key, value, keyType)), List(repository, keyType)).pairs
  {
    StoreThenLoad(t, repository, key, value, keyType, key);
    ListsWhatLoads(TableAfter(t, Store(repository, key, value, keyType)), repository, keyType, [keyType] + key[1..],
      value);
  }

  // ---------------------------------------------------------------------------
  // Over every sequence of operations
  // ---------------------------------------------------------------------------

  function AfterAll(t: Table, ops: seq<Op>): (t': Table)
    requires WellFormed(t)
    ensures WellFormed(t')
    decreases |ops|
  {
    if ops == [] then t else TableAfter(AfterAll(t, ops[..|ops| - 1]), ops[|ops| - 1])
  }

  /** The value last written here, counting a swap as a write if it expected the one before; zero at first. */
  function LastWritten(ops: seq<Op>, repository: Repository, key: Hash, keyType: KeyType): Hash
    decreases |ops|
  {
    if ops == [] then ZERO
    else
      var op, before := ops[|ops| - 1], LastWritten(ops[..|ops| - 1], repository, key, keyType);
      if Apart(op, repository, key, keyType) || (op.CompareAndSwap? && op.expected != before) then before else op.value
  }

  /** On a table that began empty, a load finds the value last written to its own repository, type and key, and a swap
      reports it; no write elsewhere plays a part. */
  lemma {:induction false} LoadFindsLastWritten(ops: seq<Op>, repository: Repository, key: Hash, keyType: KeyType)
    ensures
      var t, last := AfterAll(map[], ops), LastWritten(ops, repository, key, keyType);
      && TableReply(t, Load(repository, key, keyType)) == Loaded(Answer(last))
      && forall expected, value ::
           TableReply(t, CompareAndSwap(repository, key, expected, value, keyType)) == Swapped(last)
    decreases |ops|
  {
    if ops != [] {
      var op := ops[|ops| - 1];
      LoadFindsLastWritten(ops[..|ops| - 1], repository, key, keyType);
      if !op.Load? && !op.List? {
        TypedKeyExactly(op.key, op.keyType, key, keyType);
      }
      assert TableReply(AfterAll(map[], ops[..|ops| - 1]), CompareAndSwap(repository, key, ZERO, ZERO, keyType)) ==
             Swapped(LastWritten(ops[..|ops| - 1], repository, key, keyType));
    }
  }
}
