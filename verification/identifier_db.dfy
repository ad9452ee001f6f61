/** `ObjectIdentifierDB`: an identifier generator whose counter is backed by one row
    per category in a database table. The table is abstracted to a value
    `Database(tableExists, rows)`; each operation takes the allocator state and the
    database and returns both, updated. Every database round trip (one call of
    `loadNextIdFromDB`) takes a `Fault` naming the SQL statement that fails, if any;
    a fault naming a statement the round trip does not execute has no effect. */
module IdentifierDB {
  import opened Wrappers
  import IdFormat

  const OidTableName: string := "OIDADMIN"
  const InitialBlockSize: int := 1
  const DefaultCategory: string := "$DEFAULT"

  type PositiveInt = x: int | x > 0 witness 1

  /** One row of the table: the next unreserved id and the stored block size. */
  datatype Row = Row(nextId: int, blockSize: int)

  /** The shared table: whether it exists, and its rows keyed by category. */
  datatype Database = Database(tableExists: bool, rows: map<string, Row>) {
    /** A table that does not exist has no rows. */
    predicate Valid() {
      !tableExists ==> rows == map[]
    }
  }

  const EmptyDatabase: Database := Database(false, map[])

  /** The SQL statement of one round trip that throws an `SQLException`, if any. */
  datatype Fault =
    | NoFault
    | InitConnectFault      // opening the connection of the bootstrap
    | CreateTableFault      // CREATE TABLE
    | InsertRowFault        // INSERT of the category row
    | RefillConnectFault    // opening the connection of the refill
    | UpdateFault           // UPDATE of NEXTID after the row was read

  /** The state of one `ObjectIdentifierDB` instance. `nextAvailableId` and `format`
      are inherited from the base class; `blockSize` is null until set. */
  datatype Allocator = Allocator(
    category: string,
    qualifier: Option<string>,
    defaultStartId: int,
    blockSize: Option<PositiveInt>,
    tableInitialized: bool,
    nextAvailableId: int,
    lastPrefetchedId: int,
    format: IdFormat.Format)

  /** The allocator and database after an operation, and what it returned. */
  datatype Outcome<+T> = Outcome(alloc: Allocator, db: Database, value: T)

  /** The fields an operation never changes. */
  predicate SameConfig(a: Allocator, b: Allocator) {
    && a.category == b.category
    && a.qualifier == b.qualifier
    && a.defaultStartId == b.defaultStartId
    && a.blockSize == b.blockSize
    && a.format == b.format
  }

  /** The allocator's flag agrees with the database: a set flag means the table and
      the category row exist (rows are never deleted, so this stays true). */
  predicate Consistent(a: Allocator, db: Database) {
    db.Valid() && (a.tableInitialized ==> db.tableExists && a.category in db.rows)
  }

  /** The constructors: a null or empty category name keeps "$DEFAULT"; the counter
      starts at 1 with nothing prefetched, so the first use refills. */
  function NewAllocator(qualifier: Option<string>, categoryName: Option<string>): (a: Allocator)
    ensures categoryName.Some? && |categoryName.value| > 0 ==> a.category == categoryName.value
    ensures categoryName.None? || |categoryName.value| == 0 ==> a.category == DefaultCategory
    ensures a.qualifier == qualifier && a.blockSize.None? && !a.tableInitialized
    ensures a.nextAvailableId > a.lastPrefetchedId
  {
    var category := if categoryName.Some? && |categoryName.value| > 0 then categoryName.value else DefaultCategory;
    Allocator(category, qualifier, 1, None, false, 1, 0, IdFormat.Format(None, 10, '0'))
  }

  /** `getBlockSize`: 1 until a block size has been set. */
  function GetBlockSize(a: Allocator): (r: int)
    ensures r >= 1
    ensures a.blockSize.None? ==> r == InitialBlockSize
    ensures a.blockSize.Some? ==> r == a.blockSize.value
  {
    if a.blockSize.None? then InitialBlockSize else a.blockSize.value
  }

  /** `setBlockSize`: values <= 0 are ignored; nothing but the block size changes. */
  function SetBlockSize(a: Allocator, newValue: int): (r: Allocator)
    ensures GetBlockSize(r) == (if newValue > 0 then newValue else GetBlockSize(a))
    ensures r.(blockSize := a.blockSize) == a
  {
    if newValue > 0 then a.(blockSize := Some(newValue)) else a
  }

  /** The block size a refill uses: the configured one if set, otherwise the row's,
      forced to 1 when it is not positive. */
  function EffectiveBlockSize(a: Allocator, row: Row): (r: int)
    ensures r >= 1
    ensures a.blockSize.Some? ==> r == a.blockSize.value
    ensures a.blockSize.None? && row.blockSize > 0 ==> r == row.blockSize
    ensures a.blockSize.None? && row.blockSize <= 0 ==> r == 1
  {
    var bs := if a.blockSize.None? then row.blockSize else a.blockSize.value;
    if bs <= 0 then 1 else bs
  }

  /** `getTableName`: "OIDADMIN", qualified as "qualifier.OIDADMIN" when there is a qualifier. */
  function TableName(qualifier: Option<string>): (r: string)
    ensures |r| >= |OidTableName| && r[|r| - |OidTableName|..] == OidTableName
    ensures qualifier.None? <==> |r| == |OidTableName|
    ensures qualifier.Some? ==>
      && |r| == |qualifier.value| + 1 + |OidTableName|
      && r[..|qualifier.value|] == qualifier.value
      && r[|qualifier.value|] == '.'
  {
    if qualifier.None? then OidTableName else qualifier.value + "." + OidTableName
  }

  /** Different qualifiers name different tables. */
  lemma TableNameInjective(q1: Option<string>, q2: Option<string>)
    ensures TableName(q1) == TableName(q2) ==> q1 == q2
  {
    if TableName(q1) == TableName(q2) && q1.Some? && q2.Some? {
      var t := TableName(q1);
      var n := |OidTableName|;
      assert |q1.value| == |t| - n - 1 == |q2.value|;
      assert q1.value == t[..|q1.value|] == q2.value;
    }
  }

  /** The row `createRowForCategory` inserts: the start id and `getBlockSize()`. */
  function NewRow(a: Allocator): (r: Row)
    ensures r.nextId == a.defaultStartId && r.blockSize == GetBlockSize(a)
  {
    Row(a.defaultStartId, GetBlockSize(a))
  }

  /** Whether a fault hits the bootstrap of `tableInitialized`. */
  predicate IsInitFault(f: Fault) {
    f == InitConnectFault || f == CreateTableFault || f == InsertRowFault
  }

  /** `tableInitialized`: once the flag is set it answers true without touching the
      database. Otherwise a missing table is created together with the category row,
      a missing row is inserted, and the flag records success; an SQL error leaves it
      false (a table created before the failing INSERT stays created). */
  function TableInitialized(a: Allocator, db: Database, f: Fault): (r: Outcome<bool>)
    ensures a.tableInitialized ==> r == Outcome(a, db, true)
    ensures r.alloc == a.(tableInitialized := r.value)
    ensures r.value && !a.tableInitialized ==> r.db.tableExists && a.category in r.db.rows
    ensures !r.value ==> IsInitFault(f) && r.db.rows == db.rows
    ensures !a.tableInitialized && !IsInitFault(f) ==> r.value
    ensures db.tableExists ==> r.db.tableExists
    ensures db.Valid() ==> forall k :: k in db.rows ==> k in r.db.rows && r.db.rows[k] == db.rows[k]
    ensures forall k :: k in r.db.rows && k !in db.rows ==> k == a.category && r.db.rows[k] == NewRow(a)
    ensures db.Valid() ==> r.db.Valid()
  {
    if a.tableInitialized then Outcome(a, db, true)
    else if f == InitConnectFault then Outcome(a, db, false)
    else if !db.tableExists then
      if f == CreateTableFault then Outcome(a, db, false)
      else if f == InsertRowFault then Outcome(a, Database(true, db.rows), false)
      else Outcome(a.(tableInitialized := true), Database(true, db.rows[a.category := NewRow(a)]), true)
    else if a.category in db.rows then Outcome(a.(tableInitialized := true), db, true)
    else if f == InsertRowFault then Outcome(a, db, false)
    else Outcome(a.(tableInitialized := true), db.(rows := db.rows[a.category := NewRow(a)]), true)
  }

  /** Whether the refill of `idFromDB` reads the row and writes the new NEXTID. */
  predicate Reserves(a: Allocator, db: Database, f: Fault) {
    f != RefillConnectFault && f != UpdateFault && db.tableExists && a.category in db.rows
  }

  /** `idFromDB`: reads the category row, writes back `nextId + bs` and records
      `nextId + bs - 1` as the last prefetched id, returning the `nextId` read.
      When the row cannot be read (no connection, no table, no row) it returns 0 and
      changes nothing; when the UPDATE fails it still returns the id it read, but
      nothing is written and nothing is prefetched. */
  function IdFromDb(a: Allocator, db: Database, f: Fault): (r: Outcome<int>)
    ensures Reserves(a, db, f) ==>
      var row := db.rows[a.category];
      var next := row.nextId + EffectiveBlockSize(a, row);
      && r.value == row.nextId
      && r.db == db.(rows := db.rows[a.category := row.(nextId := next)])
      && r.alloc == a.(lastPrefetchedId := next - 1)
    ensures !Reserves(a, db, f) ==> r.alloc == a && r.db == db
    ensures f == RefillConnectFault || !db.tableExists || a.category !in db.rows ==> r.value == 0
    ensures f == UpdateFault && db.tableExists && a.category in db.rows ==> r.value == db.rows[a.category].nextId
  {
    if f == RefillConnectFault || !db.tableExists || a.category !in db.rows then Outcome(a, db, 0)
    else
      var row := db.rows[a.category];
      var id := row.nextId;
      var nextBlockStart := id + EffectiveBlockSize(a, row);
      if f == UpdateFault then Outcome(a, db, id)
      else Outcome(a.(lastPrefetchedId := nextBlockStart - 1),
                   db.(rows := db.rows[a.category := row.(nextId := nextBlockStart)]), id)
  }

  /** `loadNextIdFromDB`: bootstrap the table, then refill and make the id read the
      next available one. If the bootstrap fails, nothing but the database changes. */
  function LoadNextIdFromDb(a: Allocator, db: Database, f: Fault): (r: Outcome<()>)
    ensures SameConfig(r.alloc, a)
    ensures !TableInitialized(a, db, f).value ==>
      && r.alloc.nextAvailableId == a.nextAvailableId
      && r.alloc.lastPrefetchedId == a.lastPrefetchedId
      && r.db.rows == db.rows
  {
    var init := TableInitialized(a, db, f);
    if !init.value then Outcome(init.alloc, init.db, ())
    else
      var d := IdFromDb(init.alloc, init.db, f);
      Outcome(d.alloc.(nextAvailableId := d.value), d.db, ())
  }

  /** A refill that succeeds reserves the block [n, n + bs - 1] where n is the row's
      `nextId`: the row now holds n + bs, the block becomes the in-memory range, and
      the range is not empty. */
  lemma RefillReservesBlock(a: Allocator, db: Database, f: Fault)
    requires Consistent(a, db)
    requires TableInitialized(a, db, f).value && f != RefillConnectFault && f != UpdateFault
    ensures var init := TableInitialized(a, db, f);
      var row := init.db.rows[a.category];
      var bs := EffectiveBlockSize(a, row);
      var r := LoadNextIdFromDb(a, db, f);
      && r.alloc.nextAvailableId == row.nextId
      && r.alloc.lastPrefetchedId == row.nextId + bs - 1
      && r.db.rows[a.category] == row.(nextId := row.nextId + bs)
      && r.alloc.nextAvailableId <= r.alloc.lastPrefetchedId
      && r.alloc.tableInitialized
  {
  }

  /** A refill that finds no row (possible only when the flag was set while the row
      is missing) writes nothing, keeps `lastPrefetchedId` and makes 0 the next id. */
  lemma RefillWithoutRow(a: Allocator, db: Database, f: Fault)
    requires a.tableInitialized && a.category !in db.rows
    ensures var r := LoadNextIdFromDb(a, db, f);
      r.db == db && r.alloc.lastPrefetchedId == a.lastPrefetchedId && r.alloc.nextAvailableId == 0
  {
  }

  /** `getNextId`: refills only when the in-memory block is used up; otherwise it
      returns `nextAvailableId` and changes nothing, in memory or in the database. */
  function GetNextId(a: Allocator, db: Database, f: Fault): (r: Outcome<int>)
    ensures a.nextAvailableId <= a.lastPrefetchedId ==> r == Outcome(a, db, a.nextAvailableId)
    ensures r.value == r.alloc.nextAvailableId
    ensures SameConfig(r.alloc, a)
  {
    if a.nextAvailableId > a.lastPrefetchedId then
      var l := LoadNextIdFromDb(a, db, f);
      Outcome(l.alloc, l.db, l.alloc.nextAvailableId)
    else Outcome(a, db, a.nextAvailableId)
  }

  /** `setNextId`: stores an id that lies within the prefetched range; for any
      larger id it refills instead of storing it. */
  function SetNextId(a: Allocator, db: Database, id: int, f: Fault): (r: Outcome<()>)
    ensures id <= a.lastPrefetchedId ==> r.alloc == a.(nextAvailableId := id) && r.db == db
    ensures id > a.lastPrefetchedId ==> r == LoadNextIdFromDb(a, db, f)
    ensures SameConfig(r.alloc, a)
  {
    if id > a.lastPrefetchedId then LoadNextIdFromDb(a, db, f)
    else Outcome(a.(nextAvailableId := id), db, ())
  }

  /** `nextIdentifier`, inherited: take `getNextId()`, then `setNextId(id + 1)`.
      The first fault is for a refill by `getNextId`, the second for one by `setNextId`. */
  function NextIdentifier(a: Allocator, db: Database, f1: Fault, f2: Fault): (r: Outcome<int>)
    ensures a.nextAvailableId <= a.lastPrefetchedId ==> r.value == a.nextAvailableId
    ensures a.nextAvailableId < a.lastPrefetchedId ==>
      r.alloc == a.(nextAvailableId := a.nextAvailableId + 1) && r.db == db
    ensures SameConfig(r.alloc, a)
  {
    var g := GetNextId(a, db, f1);
    var s := SetNextId(g.alloc, g.db, g.value + 1, f2);
    Outcome(s.alloc, s.db, g.value)
  }

  /** `newIdentifier`, inherited: the formatted `nextIdentifier()`. */
  function NewIdentifier(a: Allocator, db: Database, f1: Fault, f2: Fault): (r: Outcome<string>)
    ensures var n := NextIdentifier(a, db, f1, f2);
      r.alloc == n.alloc && r.db == n.db && r.value == IdFormat.FormatId(a.format, n.value)
  {
    var n := NextIdentifier(a, db, f1, f2);
    Outcome(n.alloc, n.db, IdFormat.FormatId(a.format, n.value))
  }

  /** Bootstrap is idempotent: once it has succeeded, asking again changes nothing. */
  lemma TableInitializedIdempotent(a: Allocator, db: Database, f: Fault, g: Fault)
    requires TableInitialized(a, db, f).value
    ensures var r := TableInitialized(a, db, f);
      TableInitialized(r.alloc, r.db, g) == Outcome(r.alloc, r.db, true)
  {
  }

  /** On an empty database the first bootstrap creates the table with exactly this
      category's row; a second allocator of another category then only adds its own row. */
  lemma BootstrapCreatesTableOnce(a: Allocator, b: Allocator)
    requires !a.tableInitialized && !b.tableInitialized && a.category != b.category
    ensures var r := TableInitialized(a, EmptyDatabase, NoFault);
      && r.db == Database(true, map[a.category := NewRow(a)])
      && TableInitialized(b, r.db, NoFault).db == Database(true, map[a.category := NewRow(a), b.category := NewRow(b)])
  {
  }

  /** Every operation keeps the flag and the database consistent. */
  lemma LoadKeepsConsistent(a: Allocator, db: Database, f: Fault)
    requires Consistent(a, db)
    ensures Consistent(LoadNextIdFromDb(a, db, f).alloc, LoadNextIdFromDb(a, db, f).db)
  {
  }

  lemma NextIdentifierKeepsConsistent(a: Allocator, db: Database, f1: Fault, f2: Fault)
    requires Consistent(a, db)
    ensures Consistent(NextIdentifier(a, db, f1, f2).alloc, NextIdentifier(a, db, f1, f2).db)
  {
    var g := GetNextId(a, db, f1);
    if a.nextAvailableId > a.lastPrefetchedId {
      LoadKeepsConsistent(a, db, f1);
    }
    if g.value + 1 > g.alloc.lastPrefetchedId {
      LoadKeepsConsistent(g.alloc, g.db, f2);
    }
  }

  /** The situation of an allocator that is the only user of its row: the row's
      `nextId` is just past the prefetched block. */
  predicate Exclusive(a: Allocator, db: Database) {
    && Consistent(a, db)
    && a.tableInitialized
    && db.rows[a.category].nextId == a.lastPrefetchedId + 1
    && a.nextAvailableId <= a.lastPrefetchedId + 1
  }

  /** Without faults and without other users of the row, each call returns
      `nextAvailableId` and moves it on by exactly one, refilling as needed. */
  lemma {:induction false} ExclusiveStep(a: Allocator, db: Database)
    requires Exclusive(a, db)
    ensures var r := NextIdentifier(a, db, NoFault, NoFault);
      && r.value == a.nextAvailableId
      && r.alloc.nextAvailableId == a.nextAvailableId + 1
      && r.alloc.nextAvailableId <= r.alloc.lastPrefetchedId
      && Exclusive(r.alloc, r.db)
  {
    var g := GetNextId(a, db, NoFault);
    if a.nextAvailableId > a.lastPrefetchedId {
      RefillReservesBlock(a, db, NoFault);
    }
    assert g.value == a.nextAvailableId;
    assert Exclusive(g.alloc, g.db);
    if g.value + 1 > g.alloc.lastPrefetchedId {
      RefillReservesBlock(g.alloc, g.db, NoFault);
    }
  }

  /** The first call of a fresh allocator returns the row's `nextId`, or the start id
      of the row it creates, and leaves it the exclusive user of a non-empty block. */
  lemma FreshFirstCall(a: Allocator, db: Database)
    requires db.Valid() && !a.tableInitialized && a.nextAvailableId > a.lastPrefetchedId
    ensures var r := NextIdentifier(a, db, NoFault, NoFault);
      && r.value == (if a.category in db.rows then db.rows[a.category].nextId else a.defaultStartId)
      && r.alloc.nextAvailableId == r.value + 1
      && Exclusive(r.alloc, r.db)
  {
    var g := GetNextId(a, db, NoFault);
    RefillReservesBlock(a, db, NoFault);
    assert Exclusive(g.alloc, g.db);
    if g.value + 1 > g.alloc.lastPrefetchedId {
      RefillReservesBlock(g.alloc, g.db, NoFault);
    }
  }

  /** `k` successive calls without faults. */
  function Draw(a: Allocator, db: Database, k: nat): (r: Outcome<seq<int>>)
    decreases k
  {
    if k == 0 then Outcome(a, db, [])
    else
      var n := NextIdentifier(a, db, NoFault, NoFault);
      var rest := Draw(n.alloc, n.db, k - 1);
      Outcome(rest.alloc, rest.db, [n.value] + rest.value)
  }

  /** An exclusive allocator hands out consecutive ids across any number of refills. */
  lemma {:induction false} DrawConsecutive(a: Allocator, db: Database, k: nat)
    requires Exclusive(a, db)
    ensures |Draw(a, db, k).value| == k
    ensures forall i :: 0 <= i < k ==> Draw(a, db, k).value[i] == a.nextAvailableId + i
    decreases k
  {
    if k > 0 {
      ExclusiveStep(a, db);
      var n := NextIdentifier(a, db, NoFault, NoFault);
      DrawConsecutive(n.alloc, n.db, k - 1);
    }
  }

  /** A fresh allocator on a table without its row yields startId, startId + 1, ... */
  lemma {:induction false} FreshDrawFromStart(a: Allocator, db: Database, k: nat)
    requires db.Valid() && !a.tableInitialized && a.nextAvailableId > a.lastPrefetchedId
    requires a.category !in db.rows
    ensures |Draw(a, db, k).value| == k
    ensures forall i :: 0 <= i < k ==> Draw(a, db, k).value[i] == a.defaultStartId + i
  {
    if k > 0 {
      FreshFirstCall(a, db);
      var n := NextIdentifier(a, db, NoFault, NoFault);
      DrawConsecutive(n.alloc, n.db, k - 1);
    }
  }

  // ---------------------------------------------------------------------------
  // Refill that reports its failures instead of swallowing them.
  // ---------------------------------------------------------------------------

  /** The message `tableInitialized` logs for the step that failed. */
  function InitFailureMessage(db: Database, f: Fault): string {
    if f == InitConnectFault then "Reading OID table failed."
    else if f == CreateTableFault || !db.tableExists then "Creating OID table failed."
    else "Init OID table failed."
  }

  /** `idFromDB` with failures surfaced: a refill that cannot reserve a block leaves
      allocator and database unchanged and reports a database access failure. */
  function IdFromDbChecked(a: Allocator, db: Database, f: Fault): (r: Outcome<Result<int>>)
    ensures Reserves(a, db, f) ==>
      var d := IdFromDb(a, db, f);
      r == Outcome(d.alloc, d.db, Ok(d.value))
    ensures !Reserves(a, db, f) ==> r.alloc == a && r.db == db && r.value.Err? && r.value.failure.DatabaseAccess?
  {
    if !Reserves(a, db, f) then Outcome(a, db, Err(DatabaseAccess("Reading OID table failed.")))
    else
      var d := IdFromDb(a, db, f);
      Outcome(d.alloc, d.db, Ok(d.value))
  }

  /** `loadNextIdFromDB` with failures surfaced: on failure the in-memory counter is
      left as it was; on success the reserved block becomes the in-memory range. */
  function LoadChecked(a: Allocator, db: Database, f: Fault): (r: Outcome<Result<()>>)
    ensures SameConfig(r.alloc, a)
    ensures r.value.Err? ==>
      && r.value.failure.DatabaseAccess?
      && r.alloc.nextAvailableId == a.nextAvailableId
      && r.alloc.lastPrefetchedId == a.lastPrefetchedId
    ensures r.value.Ok? ==> r.alloc.nextAvailableId <= r.alloc.lastPrefetchedId && r.alloc.tableInitialized
  {
    var init := TableInitialized(a, db, f);
    if !init.value then Outcome(init.alloc, init.db, Err(DatabaseAccess(InitFailureMessage(db, f))))
    else
      var d := IdFromDbChecked(init.alloc, init.db, f);
      if d.value.Err? then Outcome(d.alloc, d.db, Err(d.value.failure))
      else Outcome(d.alloc.(nextAvailableId := d.value.value), d.db, Ok(()))
  }

  function GetNextIdChecked(a: Allocator, db: Database, f: Fault): (r: Outcome<Result<int>>)
    ensures a.nextAvailableId <= a.lastPrefetchedId ==> r == Outcome(a, db, Ok(a.nextAvailableId))
    ensures r.value.Ok? ==> r.value.value == r.alloc.nextAvailableId <= r.alloc.lastPrefetchedId
    ensures r.value.Err? ==> r.value.failure.DatabaseAccess?
    ensures SameConfig(r.alloc, a)
  {
    if a.nextAvailableId > a.lastPrefetchedId then
      var l := LoadChecked(a, db, f);
      if l.value.Err? then Outcome(l.alloc, l.db, Err(l.value.failure))
      else Outcome(l.alloc, l.db, Ok(l.alloc.nextAvailableId))
    else Outcome(a, db, Ok(a.nextAvailableId))
  }

  function SetNextIdChecked(a: Allocator, db: Database, id: int, f: Fault): (r: Outcome<Result<()>>)
    ensures id <= a.lastPrefetchedId ==> r == Outcome(a.(nextAvailableId := id), db, Ok(()))
    ensures id > a.lastPrefetchedId ==> r == LoadChecked(a, db, f)
    ensures SameConfig(r.alloc, a)
  {
    if id > a.lastPrefetchedId then LoadChecked(a, db, f)
    else Outcome(a.(nextAvailableId := id), db, Ok(()))
  }

  /** `nextIdentifier` with failures surfaced. A call that fails returns no id and
      keeps the counter where `getNextId` left it; a call that succeeds leaves a
      non-empty block in memory. */
  function NextIdentifierChecked(a: Allocator, db: Database, f1: Fault, f2: Fault): (r: Outcome<Result<int>>)
    ensures a.nextAvailableId < a.lastPrefetchedId ==>
      r == Outcome(a.(nextAvailableId := a.nextAvailableId + 1), db, Ok(a.nextAvailableId))
    ensures r.value.Ok? ==> r.alloc.nextAvailableId <= r.alloc.lastPrefetchedId
    ensures r.value.Err? ==> r.value.failure.DatabaseAccess?
    ensures SameConfig(r.alloc, a)
  {
    var g := GetNextIdChecked(a, db, f1);
    if g.value.Err? then g
    else
      var s := SetNextIdChecked(g.alloc, g.db, g.value.value + 1, f2);
      if s.value.Err? then Outcome(s.alloc, s.db, Err(s.value.failure))
      else Outcome(s.alloc, s.db, Ok(g.value.value))
  }

  /** Without faults on a consistent state the refill as written and the checked refill agree. */
  lemma LoadAgreesWithoutFault(a: Allocator, db: Database)
    requires Consistent(a, db)
    ensures var l := LoadNextIdFromDb(a, db, NoFault);
      LoadChecked(a, db, NoFault) == Outcome(l.alloc, l.db, Ok(()))
  {
  }

  /** Without faults, `nextIdentifier` as written and the checked version agree, so
      every property proved of the checked version holds of fault-free runs. */
  lemma NextIdentifierAgreesWithoutFault(a: Allocator, db: Database)
    requires Consistent(a, db)
    ensures var w := NextIdentifier(a, db, NoFault, NoFault);
      NextIdentifierChecked(a, db, NoFault, NoFault) == Outcome(w.alloc, w.db, Ok(w.value))
  {
    var g := GetNextId(a, db, NoFault);
    if a.nextAvailableId > a.lastPrefetchedId {
      LoadAgreesWithoutFault(a, db);
      LoadKeepsConsistent(a, db, NoFault);
    }
    if g.value + 1 > g.alloc.lastPrefetchedId {
      LoadAgreesWithoutFault(g.alloc, g.db);
    }
  }

  /** As written, a failed UPDATE is logged and swallowed, yet the id read from the row
      is installed as the next id and handed out; the same id comes out again on the
      next call, once the block starting at it has really been reserved. */
  lemma FailedUpdateRepeatsId()
    ensures var db := Database(true, map["Beta" := Row(1000, 5)]);
      var a := NewAllocator(None, Some("Beta"));
      var r1 := NextIdentifier(a, db, UpdateFault, NoFault);
      var r2 := NextIdentifier(r1.alloc, r1.db, NoFault, NoFault);
      r1.value == 1000 && r2.value == 1000
  {
  }

  /** With the failure surfaced, the same schedule yields an error first and then
      1000 and 1001. */
  lemma FailedUpdateReported()
    ensures var db := Database(true, map["Beta" := Row(1000, 5)]);
      var a := NewAllocator(None, Some("Beta"));
      var r1 := NextIdentifierChecked(a, db, UpdateFault, NoFault);
      var r2 := NextIdentifierChecked(r1.alloc, r1.db, NoFault, NoFault);
      var r3 := NextIdentifierChecked(r2.alloc, r2.db, NoFault, NoFault);
      r1.value.Err? && r2.value == Ok(1000) && r3.value == Ok(1001)
  {
  }
}
