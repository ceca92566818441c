/** The mutable store: one table of 32-byte values under typed 32-byte keys, where zero means absent. */
module MutableStore {
  import opened ByteStrings
  import opened Outcomes

  type Repository(==, !new)

  type Hash = b: Bytes | |b| == 32 witness Filled(32, 0)

  const ZERO: Hash := Filled(32, 0)

  type KeyType = Byte

  // The discriminant of KeyType::Untyped.
  const UNTYPED: KeyType

  datatype Cell = Cell(repository: Repository, key: Bytes)

  type Table = map<Cell, Bytes>

  predicate WellFormed(t: Table) {
    forall c :: c in t ==> |c.key| == 32 && |t[c]| == 32
  }

  function TypedKey(key: Hash, keyType: KeyType): Hash {
    key[0 := keyType]
  }

  /** The type byte takes the place of byte 0 and the other 31 stay: two calls share a cell exactly if they agree on the
      type and on all bytes of the key but the first. */
  lemma TypedKeyExactly(key: Hash, keyType: KeyType, other: Hash, otherType: KeyType)
    ensures TypedKey(key, keyType) == [keyType] + key[1..]
    ensures TypedKey(key, keyType) == TypedKey(other, otherType) <==> keyType == otherType && key[1..] == other[1..]
  {
    var k, o := TypedKey(key, keyType), TypedKey(other, otherType);
    assert k[1..] == key[1..] && o[1..] == other[1..];
    assert k == [k[0]] + k[1..] && o == [o[0]] + o[1..];
  }

  function HashFromBytes(bytes: Bytes): Result<Hash> {
    if |bytes| == 32 then Ok(bytes) else Err(Internal)
  }

  // ---------------------------------------------------------------------------
  // Operations as callers see them
  // ---------------------------------------------------------------------------

  datatype Op =
    | Load(repository: Repository, key: Hash, keyType: KeyType)
    | Store(repository: Repository, key: Hash, value: Hash, keyType: KeyType)
    | CompareAndSwap(repository: Repository, key: Hash, expected: Hash, value: Hash, keyType: KeyType)
    | List(repository: Repository, keyType: KeyType)

  datatype Reply =
    | Loaded(r: Result<Hash>)
    | Stored
    | Swapped(prior: Hash)
    | Listed(pairs: set<(Bytes, Bytes)>)

  // ---------------------------------------------------------------------------
  // The specification: a map without zero values
  // ---------------------------------------------------------------------------

  function SpecValue(m: map<Cell, Hash>, c: Cell): Hash {
    if c in m then m[c] else ZERO
  }

  function SpecWrite(m: map<Cell, Hash>, c: Cell, value: Hash): map<Cell, Hash> {
    if value == ZERO then m - {c} else m[c := value]
  }

  function SpecAfter(m: map<Cell, Hash>, op: Op): map<Cell, Hash> {
    match op
    case Load(_, _, _) => m
    case Store(repository, key, value, keyType) => SpecWrite(m, Cell(repository, TypedKey(key, keyType)), value)
    case CompareAndSwap(repository, key, expected, value, keyType) =>
      var c := Cell(repository, TypedKey(key, keyType));
      if SpecValue(m, c) == expected then SpecWrite(m, c, value) else m
    case List(_, _) => m
  }

  /** Every pair of one repository whose key starts with the type byte, and nothing for the untyped type. */
  function SpecList(m: map<Cell, Hash>, repository: Repository, keyType: KeyType): set<(Bytes, Bytes)> {
    if keyType == UNTYPED then {}
    else set c: Cell | c in m && c.repository == repository && |c.key| == 32 && c.key[0] == keyType :: (c.key, m[c])
  }

  function SpecReply(m: map<Cell, Hash>, op: Op): Reply {
    match op
    case Load(repository, key, keyType) =>
      var v := SpecValue(m, Cell(repository, TypedKey(key, keyType)));
      Loaded(if v == ZERO then Err(AddressNotFound) else Ok(v))
    case Store(_, _, _, _) => Stored
    case CompareAndSwap(repository, key, _, _, keyType) =>
      Swapped(SpecValue(m, Cell(repository, TypedKey(key, keyType))))
    case List(repository, keyType) => Listed(SpecList(m, repository, keyType))
  }

  // ---------------------------------------------------------------------------
  // The table: stored zeros and absent rows both occur
  // ---------------------------------------------------------------------------

  function ValueAt(t: Table, c: Cell): Hash
    requires WellFormed(t)
  {
    if c in t then t[c] else ZERO
  }

  /** The table without its stored zeros. */
  function Normal(t: Table): map<Cell, Hash>
    requires WellFormed(t)
  {
    map c | c in t && t[c] != ZERO :: t[c]
  }

  function TableStore(t: Table, c: Cell, value: Hash): Table {
    if value == ZERO then t - {c} else t[c := value]
  }

  function TableAfter(t: Table, op: Op): (t': Table)
    requires WellFormed(t)
    ensures WellFormed(t')
  {
    match op
    case Load(_, _, _) => t
    case Store(repository, key, value, keyType) => TableStore(t, Cell(repository, TypedKey(key, keyType)), value)
    case CompareAndSwap(repository, key, expected, value, keyType) =>
      var c := Cell(repository, TypedKey(key, keyType));
      if ValueAt(t, c) == expected then t[c := value] else t
    case List(_, _) => t
  }

  function KeyStart(keyType: KeyType): Hash {
    [keyType] + Filled(31, 0)
  }

  function KeyEnd(keyType: KeyType): Hash {
    [keyType] + Filled(31, 255)
  }

  /** The rows the list statement selects. */
  function Selected(t: Table, repository: Repository, keyType: KeyType): set<Cell> {
    set c | c in t && c.repository == repository && AtMost(KeyStart(keyType), c.key) && AtMost(c.key, KeyEnd(keyType))
  }

  /** The pairs the list statement and the loop over its rows deliver. */
  function TableList(t: Table, repository: Repository, keyType: KeyType): set<(Bytes, Bytes)>
    requires WellFormed(t)
  {
    if keyType == UNTYPED then {}
    else set c | c in Selected(t, repository, keyType) && t[c] != ZERO :: (c.key, t[c])
  }

  function TableReply(t: Table, op: Op): Reply
    requires WellFormed(t)
  {
    match op
    case Load(repository, key, keyType) =>
      var v := ValueAt(t, Cell(repository, TypedKey(key, keyType)));
      Loaded(if v != ZERO then Ok(v) else Err(AddressNotFound))
    case Store(_, _, _, _) => Stored
    case CompareAndSwap(repository, key, _, _, keyType) => Swapped(ValueAt(t, Cell(repository, TypedKey(key, keyType))))
    case List(repository, keyType) => Listed(TableList(t, repository, keyType))
  }

  /** The key range of a type holds exactly the 32-byte keys that begin with its byte. */
  lemma RangeIsType(key: Hash, keyType: KeyType)
    ensures AtMost(KeyStart(keyType), key) && AtMost(key, KeyEnd(keyType)) <==> key[0] == keyType
  {
    FilledBounds(key[1..]);
    assert key == [key[0]] + key[1..];
    assert KeyStart(keyType)[1..] == Filled(31, 0) && KeyEnd(keyType)[1..] == Filled(31, 255);
  }

  lemma ListRefines(t: Table, repository: Repository, keyType: KeyType)
    requires WellFormed(t)
    ensures TableList(t, repository, keyType) == SpecList(Normal(t), repository, keyType)
  {
    forall c | c in t
      ensures AtMost(KeyStart(keyType), c.key) && AtMost(c.key, KeyEnd(keyType)) <==> c.key[0] == keyType
    {
      RangeIsType(c.key, keyType);
    }
  }

  lemma ValueRefines(t: Table, c: Cell)
    requires WellFormed(t)
    ensures ValueAt(t, c) == SpecValue(Normal(t), c)
  {
  }

  /** Deleting a row and writing a zero into it come to the same. */
  lemma WriteRefines(t: Table, c: Cell, value: Hash)
    requires WellFormed(t) && |c.key| == 32
    ensures WellFormed(TableStore(t, c, value)) && Normal(TableStore(t, c, value)) == SpecWrite(Normal(t), c, value)
    ensures WellFormed(t[c := value]) && Normal(t[c := value]) == SpecWrite(Normal(t), c, value)
  {
  }

  /** One operation on a table and on its normal form give the same reply and stay in step. */
  lemma StepRefines(t: Table, op: Op)
    requires WellFormed(t)
    ensures TableReply(t, op) == SpecReply(Normal(t), op)
    ensures Normal(TableAfter(t, op)) == SpecAfter(Normal(t), op)
  {
    if op.List? {
      ListRefines(t, op.repository, op.keyType);
    } else {
      var c := Cell(op.repository, TypedKey(op.key, op.keyType));
      ValueRefines(t, c);
      if !op.Load? {
        WriteRefines(t, c, op.value);
      }
    }
  }

  function TableReplies(t: Table, ops: seq<Op>): seq<Reply>
    requires WellFormed(t)
    decreases |ops|
  {
    if ops == [] then [] else [TableReply(t, ops[0])] + TableReplies(TableAfter(t, ops[0]), ops[1..])
  }

  function SpecReplies(m: map<Cell, Hash>, ops: seq<Op>): seq<Reply>
    decreases |ops|
  {
    if ops == [] then [] else [SpecReply(m, ops[0])] + SpecReplies(SpecAfter(m, ops[0]), ops[1..])
  }

  /** Over every sequence of operations the table answers as the map without zeros does. */
  lemma {:induction false} TableRefinesMap(t: Table, ops: seq<Op>)
    requires WellFormed(t)
    ensures TableReplies(t, ops) == SpecReplies(Normal(t), ops)
    decreases |ops|
  {
    if ops != [] {
      StepRefines(t, ops[0]);
      TableRefinesMap(TableAfter(t, ops[0]), ops[1..]);
    }
  }

  /** So a stored zero and an absent row cannot be told apart by any sequence of operations. */
  lemma ZeroIsAbsent(t: Table, u: Table, ops: seq<Op>)
    requires WellFormed(t) && WellFormed(u)
    requires forall c :: ValueAt(t, c) == ValueAt(u, c)
    ensures TableReplies(t, ops) == TableReplies(u, ops)
  {
    forall c
      ensures c in Normal(t) <==> c in Normal(u)
      ensures c in Normal(t) ==> Normal(t)[c] == Normal(u)[c]
    {
      assert ValueAt(t, c) == ValueAt(u, c);
    }
    assert Normal(t) == Normal(u);
    TableRefinesMap(t, ops);
    TableRefinesMap(u, ops);
  }

  /** An operation on another repository or type leaves a list as it was. */
  lemma ListIsolated(t: Table, op: Op, repository: Repository, keyType: KeyType)
    requires WellFormed(t)
    requires op.repository != repository || op.keyType != keyType
    ensures TableList(TableAfter(t, op), repository, keyType) == TableList(t, repository, keyType)
  {
    StepRefines(t, op);
    ListRefines(t, repository, keyType);
    ListRefines(TableAfter(t, op), repository, keyType);
    var m := Normal(t);
    forall c: Cell | |c.key| == 32 && c.repository == repository && c.key[0] == keyType
      ensures SpecValue(SpecAfter(m, op), c) == SpecValue(m, c) && (c in SpecAfter(m, op) <==> c in m)
    {
    }
  }

  // ---------------------------------------------------------------------------
  // The store
  // ---------------------------------------------------------------------------

  class PgMutableStore {
    var rows: Table

    constructor ()
      ensures Valid() && rows == map[]
    {
      rows := map[];
    }

    ghost predicate Valid()
      reads this
    {
      WellFormed(rows)
    }

    method FetchCurrent(c: Cell) returns (r: Result<Hash>, found: bool)
      requires Valid()
      ensures r == Ok(ValueAt(rows, c)) && found == (c in rows)
    {
      found := c in rows;
      r := if found then HashFromBytes(rows[c]) else Ok(ZERO);
    }

    method DoLoad(repository: Repository, key: Hash, keyType: KeyType) returns (r: Result<Hash>)
      requires Valid()
      ensures Loaded(r) == TableReply(rows, Load(repository, key, keyType))
      ensures
        var c := Cell(repository, [keyType] + key[1..]);
        r == if c in rows && rows[c] != ZERO then Ok(rows[c]) else Err(AddressNotFound)
    {
      TypedKeyExactly(key, keyType, key, keyType);
      var value, found := FetchCurrent(Cell(repository, TypedKey(key, keyType)));
      if value.Err? {
        return value;
      }
      r := if found && value.value != ZERO then value else Err(AddressNotFound);
    }

    method DoStore(repository: Repository, key: Hash, value: Hash, keyType: KeyType)
      requires Valid()
      modifies this
      ensures Valid()
      ensures rows == TableAfter(old(rows), Store(repository, key, value, keyType))
      ensures
        var c := Cell(repository, [keyType] + key[1..]);
        rows == if value == ZERO then old(rows) - {c} else old(rows)[c := value]
    {
      TypedKeyExactly(key, keyType, key, keyType);
      var c := Cell(repository, TypedKey(key, keyType));
      if value == ZERO {
        rows := rows - {c};
      } else {
        rows := rows[c := value];
      }
    }

    /** Writes even a zero when the comparison succeeds, and always reports the value found. */
    method DoCompareAndSwap(repository: Repository, key: Hash, expected: Hash, value: Hash, keyType: KeyType)
      returns (r: Result<Hash>)
      requires Valid()
      modifies this
      ensures Valid() && r.Ok?
      ensures Swapped(r.value) == TableReply(old(rows), CompareAndSwap(repository, key, expected, value, keyType))
      ensures rows == TableAfter(old(rows), CompareAndSwap(repository, key, expected, value, keyType))
      ensures
        var c := Cell(repository, [keyType] + key[1..]);
        && r.value == (if c in old(rows) then old(rows)[c] else ZERO)
        && rows == if r.value == expected then old(rows)[c := value] else old(rows)
    {
      TypedKeyExactly(key, keyType, key, keyType);
      var c := Cell(repository, TypedKey(key, keyType));
      var current, found := FetchCurrent(c);
      if current.Ok? && current.value == expected {
        rows := rows[c := value];
      }
      r := current;
    }

    /** Sends each selected row with a value, in whatever order the statement returns them. */
    method DoList(repository: Repository, keyType: KeyType) returns (stream: seq<(Bytes, Bytes)>)
      requires Valid()
      ensures forall i, j :: 0 <= i < j < |stream| ==> stream[i].0 != stream[j].0
      ensures Listed(set p | p in stream) == TableReply(rows, List(repository, keyType))
    {
      stream := [];
      if keyType == UNTYPED {
        return;
      }
      ghost var sent: set<Cell> := {};
      var pending := Selected(rows, repository, keyType);
      while pending != {}
        invariant sent + pending == Selected(rows, repository, keyType) && sent !! pending
        invariant forall i, j :: 0 <= i < j < |stream| ==> stream[i].0 != stream[j].0
        invariant forall p :: p in stream ==> Cell(repository, p.0) in sent
        invariant forall p :: p in stream ==> rows[Cell(repository, p.0)] == p.1 != ZERO
        invariant forall c :: c in sent && rows[c] != ZERO ==> (c.key, rows[c]) in stream
        decreases pending
      {
        var c :| c in pending;
        pending := pending - {c};
        var key, value := HashFromBytes(c.key), HashFromBytes(rows[c]);
        if key.Ok? && value.Ok? && value.value != ZERO {
          assert forall p :: p in stream ==> p.0 != c.key;
          stream := stream + [(key.value, value.value)];
        }
        sent := sent + {c};
      }
      assert forall p :: p in stream ==> Cell(repository, p.0) in Selected(rows, repository, keyType);
    }
  }
}
