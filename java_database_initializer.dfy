/** The Java `DatabaseInitializer`: at start-up, when the operation-type table
    is empty, save the four operation types in order; otherwise do nothing. */
module JavaDatabaseInitializer {
  import opened Model
  import opened Tables
  import opened Persistence

  /** The operation-type table after `run`: an empty table receives the four
      seed rows under consecutive fresh ids, in list order; a non-empty table is
      left exactly as it was. Existing rows are never changed or removed. */
  function Seeded(table: Table<OperationType>): (r: Table<OperationType>)
    requires table.Valid()
    ensures r.Valid()
    ensures forall id :: id in table.rows ==> id in r.rows && r.rows[id] == table.rows[id]
    ensures |table.rows| != 0 ==> r == table
    ensures |table.rows| == 0 ==> |r.rows| == 4
  {
    if |table.rows| == 0 then
      table
        .Insert(OperationType(SeedDescriptions[0]))
        .Insert(OperationType(SeedDescriptions[1]))
        .Insert(OperationType(SeedDescriptions[2]))
        .Insert(OperationType(SeedDescriptions[3]))
    else
      table
  }

  /** Four inserts in a row land under four consecutive ids, in order. */
  lemma FourInsertsInOrder(table: Table<OperationType>, a: OperationType, b: OperationType, c: OperationType, e: OperationType)
    requires table.Valid()
    ensures var r := table.Insert(a).Insert(b).Insert(c).Insert(e);
      && table.nextId in r.rows && r.rows[table.nextId] == a
      && table.nextId + 1 in r.rows && r.rows[table.nextId + 1] == b
      && table.nextId + 2 in r.rows && r.rows[table.nextId + 2] == c
      && table.nextId + 3 in r.rows && r.rows[table.nextId + 3] == e
  {
    var n := table.nextId;
    var first := table.Insert(a);
    var second := first.Insert(b);
    var third := second.Insert(c);
    var fourth := third.Insert(e);
    assert second.rows[n] == a;
    assert third.rows[n] == a && third.rows[n + 1] == b;
  }

  /** On an empty table the four seed rows get consecutive fresh ids in list
      order, so the i-th description is saved i-th. */
  lemma EmptyTableSeededInOrder(table: Table<OperationType>)
    requires table.Valid() && |table.rows| == 0
    ensures forall i :: 0 <= i < |SeedDescriptions| ==>
      table.nextId + i in Seeded(table).rows && Seeded(table).rows[table.nextId + i] == OperationType(SeedDescriptions[i])
  {
    FourInsertsInOrder(table,
      OperationType(SeedDescriptions[0]), OperationType(SeedDescriptions[1]),
      OperationType(SeedDescriptions[2]), OperationType(SeedDescriptions[3]));
    forall i | 0 <= i < |SeedDescriptions|
      ensures table.nextId + i in Seeded(table).rows && Seeded(table).rows[table.nextId + i] == OperationType(SeedDescriptions[i])
    {
      assert i == 0 || i == 1 || i == 2 || i == 3;
    }
  }

  /** `run`: the `count() == 0` guard and the four `save` calls. */
  method Run(store: Store)
    requires store.Valid()
    modifies store
    ensures store.Valid()
    ensures store.operationTypes == Seeded(old(store.operationTypes))
    ensures store.accounts == old(store.accounts) && store.transactions == old(store.transactions)
  {
    if |store.operationTypes.rows| == 0 {
      var normal := store.InsertOperationType(OperationType(SeedDescriptions[0]));
      var installments := store.InsertOperationType(OperationType(SeedDescriptions[1]));
      var withdrawal := store.InsertOperationType(OperationType(SeedDescriptions[2]));
      var voucher := store.InsertOperationType(OperationType(SeedDescriptions[3]));
    }
  }

  /** Running the initializer twice leaves the same table as running it once. */
  lemma RunTwiceIsRunOnce(table: Table<OperationType>)
    requires table.Valid()
    ensures Seeded(Seeded(table)) == Seeded(table)
  {
    if |table.rows| == 0 {
      assert table.nextId in Seeded(table).rows;
    }
  }
}
