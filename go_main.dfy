/** The Go start-up seeding (`initializeOperationTypes`): `CreateIfNotExists`
    once per seed description, in list order, ignoring every error it returns.
    Unlike the Java initializer it fills in missing descriptions even when the
    table already has rows. */
module GoMain {
  import opened Model
  import opened Tables
  import opened Persistence
  import opened GoRepositories
  import JavaDatabaseInitializer

  /** The operation-type table after `CreateIfNotExists` has run for each
      description in turn, the i-th call meeting the store outcomes `calls[i]`. */
  function Seeded(table: Table<OperationType>, descriptions: seq<string>, calls: seq<CreateCalls>)
    : (r: Table<OperationType>)
    requires table.Valid() && |calls| == |descriptions|
    ensures r.Valid()
    ensures forall id :: id in table.rows ==> id in r.rows && r.rows[id] == table.rows[id]
    decreases |descriptions|
  {
    if descriptions == [] then
      table
    else
      var n := |descriptions| - 1;
      CreateIfNotExistsOn(Seeded(table, descriptions[..n], calls[..n]), descriptions[n], calls[n]).0
  }

  /** The loop body of `initializeOperationTypes`, over any list of descriptions:
      `CreateIfNotExists` once per description, errors discarded. */
  method CreateEach(store: Store, descriptions: seq<string>, calls: seq<CreateCalls>)
    requires store.Valid() && |calls| == |descriptions|
    modifies store
    ensures store.Valid()
    ensures store.operationTypes == Seeded(old(store.operationTypes), descriptions, calls)
    ensures store.accounts == old(store.accounts) && store.transactions == old(store.transactions)
  {
    for i := 0 to |descriptions|
      invariant store.Valid()
      invariant store.operationTypes == Seeded(old(store.operationTypes), descriptions[..i], calls[..i])
      invariant store.accounts == old(store.accounts) && store.transactions == old(store.transactions)
    {
      assert descriptions[..i + 1][..i] == descriptions[..i];
      assert calls[..i + 1][..i] == calls[..i];
      var ignored := CreateIfNotExists(store, descriptions[i], calls[i]);
    }
    assert descriptions[..|descriptions|] == descriptions;
    assert calls[..|calls|] == calls;
  }

  /** `initializeOperationTypes`: the four seed descriptions, in list order. */
  method InitializeOperationTypes(store: Store, calls: seq<CreateCalls>)
    requires store.Valid() && |calls| == |SeedDescriptions|
    modifies store
    ensures store.Valid()
    ensures store.operationTypes == Seeded(old(store.operationTypes), SeedDescriptions, calls)
    ensures store.accounts == old(store.accounts) && store.transactions == old(store.transactions)
  {
    CreateEach(store, SeedDescriptions, calls);
  }

  /** Four store outcomes that all succeed. */
  const NoFaultCalls: seq<CreateCalls> := [NoFaults, NoFaults, NoFaults, NoFaults]

  /** With no store failure, every description has a row afterwards, whatever
      the table held before. */
  lemma {:induction false} AllPresentWithoutFaults(
    table: Table<OperationType>, descriptions: seq<string>, calls: seq<CreateCalls>)
    requires table.Valid() && |calls| == |descriptions|
    requires forall i :: 0 <= i < |calls| ==> calls[i] == NoFaults
    ensures forall d :: d in descriptions ==> HasDescription(Seeded(table, descriptions, calls).rows, d)
    decreases |descriptions|
  {
    if descriptions != [] {
      var n := |descriptions| - 1;
      AllPresentWithoutFaults(table, descriptions[..n], calls[..n]);
      var before := Seeded(table, descriptions[..n], calls[..n]);
      var after := Seeded(table, descriptions, calls);
      forall d | d in descriptions ensures HasDescription(after.rows, d) {
        if d != descriptions[n] {
          assert d in descriptions[..n];
          var id :| id in before.rows && before.rows[id].description == d;
          assert after.rows[id] == before.rows[id];
        }
      }
    }
  }

  /** When every description already has a row, seeding changes nothing, even if
      store calls fail. */
  lemma {:induction false} NoChangeWhenAllPresent(
    table: Table<OperationType>, descriptions: seq<string>, calls: seq<CreateCalls>)
    requires table.Valid() && |calls| == |descriptions|
    requires forall d :: d in descriptions ==> HasDescription(table.rows, d)
    ensures Seeded(table, descriptions, calls) == table
    decreases |descriptions|
  {
    if descriptions != [] {
      var n := |descriptions| - 1;
      forall d | d in descriptions[..n] ensures HasDescription(table.rows, d) {
        assert d in descriptions;
      }
      NoChangeWhenAllPresent(table, descriptions[..n], calls[..n]);
      assert descriptions[n] in descriptions;
    }
  }

  /** A second run after a fault-free first run adds no rows, whatever its own
      store calls do. */
  lemma SecondRunAddsNothing(table: Table<OperationType>, calls: seq<CreateCalls>)
    requires table.Valid() && |calls| == |SeedDescriptions|
    ensures var once := Seeded(table, SeedDescriptions, NoFaultCalls);
      Seeded(once, SeedDescriptions, calls) == once
  {
    AllPresentWithoutFaults(table, SeedDescriptions, NoFaultCalls);
    NoChangeWhenAllPresent(Seeded(table, SeedDescriptions, NoFaultCalls), SeedDescriptions, calls);
  }

  /** Seeding never adds a row for a description that already had one. */
  lemma {:induction false} PresentDescriptionNotDuplicated(
    table: Table<OperationType>, descriptions: seq<string>, calls: seq<CreateCalls>, description: string)
    requires table.Valid() && |calls| == |descriptions|
    requires HasDescription(table.rows, description)
    ensures RowsWith(Seeded(table, descriptions, calls).rows, description) == RowsWith(table.rows, description)
    decreases |descriptions|
  {
    if descriptions != [] {
      var n := |descriptions| - 1;
      PresentDescriptionNotDuplicated(table, descriptions[..n], calls[..n], description);
      var before := Seeded(table, descriptions[..n], calls[..n]);
      var id :| id in table.rows && table.rows[id].description == description;
      assert before.rows[id] == table.rows[id];
      CreateIfNotExistsKeepsPresentDescription(before, descriptions[n], calls[n], description);
    }
  }

  /** Plain inserts of the descriptions, in order. */
  function InsertAll(table: Table<OperationType>, descriptions: seq<string>): (r: Table<OperationType>)
    requires table.Valid()
    ensures r.Valid()
    ensures forall id :: id in r.rows ==> id in table.rows || r.rows[id].description in descriptions
    decreases |descriptions|
  {
    if descriptions == [] then
      table
    else
      var n := |descriptions| - 1;
      InsertAll(table, descriptions[..n]).Insert(OperationType(descriptions[n]))
  }

  /** When none of the descriptions is present and they are pairwise distinct, a
      fault-free run inserts each of them, in order. */
  lemma {:induction false} FreshDescriptionsAllInserted(
    table: Table<OperationType>, descriptions: seq<string>, calls: seq<CreateCalls>)
    requires table.Valid() && |calls| == |descriptions|
    requires forall i :: 0 <= i < |calls| ==> calls[i] == NoFaults
    requires forall d :: d in descriptions ==> !HasDescription(table.rows, d)
    requires forall i, j :: 0 <= i < j < |descriptions| ==> descriptions[i] != descriptions[j]
    ensures Seeded(table, descriptions, calls) == InsertAll(table, descriptions)
    decreases |descriptions|
  {
    if descriptions != [] {
      var n := |descriptions| - 1;
      var prefix, last := descriptions[..n], descriptions[n];
      forall d | d in prefix ensures !HasDescription(table.rows, d) {
        assert d in descriptions;
      }
      FreshDescriptionsAllInserted(table, prefix, calls[..n]);
      var before := InsertAll(table, prefix);
      assert Seeded(table, prefix, calls[..n]) == before;
      forall k | 0 <= k < n ensures prefix[k] != last {
        assert descriptions[k] != descriptions[n];
      }
      assert last in descriptions;
      forall id | id in before.rows ensures before.rows[id].description != last {
        if id !in table.rows {
          assert before.rows[id].description in prefix;
        }
      }
      assert !HasDescription(before.rows, last);
      assert calls[n] == NoFaults;
      assert CreateIfNotExistsOn(before, last, calls[n]).0 == before.Insert(OperationType(last));
    }
  }

  /** The four seed descriptions are pairwise distinct (their lengths differ). */
  lemma SeedDescriptionsDistinct(descriptions: seq<string>)
    requires descriptions == SeedDescriptions
    ensures forall i, j :: 0 <= i < j < |descriptions| ==> descriptions[i] != descriptions[j]
  {
    assert |descriptions[0]| == 15 && |descriptions[1]| == 26;
    assert |descriptions[2]| == 10 && |descriptions[3]| == 14;
  }

  /** Plain inserts of four descriptions are the four inserts in a row. */
  lemma InsertAllFour(table: Table<OperationType>, descriptions: seq<string>)
    requires table.Valid() && |descriptions| == 4
    ensures InsertAll(table, descriptions)
         == table
              .Insert(OperationType(descriptions[0]))
              .Insert(OperationType(descriptions[1]))
              .Insert(OperationType(descriptions[2]))
              .Insert(OperationType(descriptions[3]))
  {
    var d := descriptions;
    assert d[..1][..0] == [] && d[..1][0] == d[0];
    assert InsertAll(table, d[..1][..0]) == table;
    var first := InsertAll(table, d[..1]);
    assert first == table.Insert(OperationType(d[0]));
    assert d[..2][..1] == d[..1] && d[..2][1] == d[1];
    var second := InsertAll(table, d[..2]);
    assert second == first.Insert(OperationType(d[1]));
    assert d[..3][..2] == d[..2] && d[..3][2] == d[2];
    var third := InsertAll(table, d[..3]);
    assert third == second.Insert(OperationType(d[2]));
    assert d[..3] == d[..|d| - 1];
  }

  /** On an empty table with no store failure, the Go and the Java seeders
      produce the same table. */
  lemma AgreesWithJavaOnEmptyTable(table: Table<OperationType>)
    requires table.Valid() && |table.rows| == 0
    ensures Seeded(table, SeedDescriptions, NoFaultCalls) == JavaDatabaseInitializer.Seeded(table)
  {
    assert table.rows == map[];
    SeedDescriptionsDistinct(SeedDescriptions);
    FreshDescriptionsAllInserted(table, SeedDescriptions, NoFaultCalls);
    InsertAllFour(table, SeedDescriptions);
  }

  /** The seeders differ on a non-empty table: with only "Withdrawal" present,
      the Java initializer adds nothing while the Go loop adds the missing three. */
  lemma DiffersFromJavaOnPartialTable(table: Table<OperationType>)
    requires table == Table(map[1 := OperationType("Withdrawal")], 2)
    ensures JavaDatabaseInitializer.Seeded(table) == table
    ensures forall i :: 0 <= i < |SeedDescriptions| ==>
      HasDescription(Seeded(table, SeedDescriptions, NoFaultCalls).rows, SeedDescriptions[i])
    ensures forall i :: 0 <= i < |SeedDescriptions| && i != 2 ==> !HasDescription(table.rows, SeedDescriptions[i])
  {
    AllPresentWithoutFaults(table, SeedDescriptions, NoFaultCalls);
    SeedDescriptionsDistinct(SeedDescriptions);
    forall i | 0 <= i < |SeedDescriptions| && i != 2 ensures !HasDescription(table.rows, SeedDescriptions[i]) {
      assert SeedDescriptions[i] != SeedDescriptions[2];
    }
  }
}
