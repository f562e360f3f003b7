/** The Go repositories over the store: gorm's `First` by primary key, the
    operation-type repository's `GetByID` and `CreateIfNotExists`, and the
    account and transaction lookups the services call. */
module GoRepositories {
  import opened Model
  import opened Tables
  import opened Persistence

  /** `db.First(&row, id)`: the row under that id, gorm's not-found error when
      there is none, or the store's own error when the call fails. */
  function First<T>(table: Table<T>, id: nat, call: StoreCall): (r: Result<T, GoError>)
    ensures call.FailsWith? ==> r == Err(DbError(call.error))
    ensures call.Succeeds? ==> (r.Ok? <==> id in table.rows)
    ensures call.Succeeds? && id !in table.rows ==> r == Err(RecordNotFound)
    ensures r.Ok? ==> id in table.rows && r.value == table.rows[id]
  {
    match call
    case FailsWith(error) => Err(DbError(error))
    case Succeeds => if id in table.rows then Ok(table.rows[id]) else Err(RecordNotFound)
  }

  /** `OperationTypeRepository.GetByID`. */
  function OperationTypeById(store: Store, id: nat, call: StoreCall): (r: Result<OperationType, GoError>)
    reads store
    ensures call.Succeeds? ==> (r.Ok? <==> id in store.operationTypes.rows)
    ensures call.Succeeds? && id !in store.operationTypes.rows ==> r == Err(RecordNotFound)
    ensures r.Ok? ==> id in store.operationTypes.rows && r.value == store.operationTypes.rows[id]
    ensures call.FailsWith? ==> r.Err? && r.error.Error() == call.error.message
  {
    First(store.operationTypes, id, call)
  }

  /** Whether some row already carries this description (the `Where` of `CreateIfNotExists`). */
  predicate HasDescription(rows: map<nat, OperationType>, description: string) {
    exists id :: id in rows && rows[id].description == description
  }

  /** The ids of the rows carrying this description. */
  ghost function RowsWith(rows: map<nat, OperationType>, description: string): set<nat> {
    set id | id in rows && rows[id].description == description
  }

  /** The two store calls `CreateIfNotExists` makes: the lookup by description and the insert. */
  datatype CreateCalls = CreateCalls(lookup: StoreCall, insert: StoreCall)

  const NoFaults := CreateCalls(Succeeds, Succeeds)

  /** What `CreateIfNotExists` does to the operation-type table, and the error it
      returns: a failed lookup is returned and nothing is inserted; a found row
      means no change and no error; otherwise the insert's outcome decides. */
  function CreateIfNotExistsOn(table: Table<OperationType>, description: string, calls: CreateCalls)
    : (r: (Table<OperationType>, Option<GoError>))
    requires table.Valid()
    ensures r.0.Valid()
    ensures forall id :: id in table.rows ==> id in r.0.rows && r.0.rows[id] == table.rows[id]
    ensures r.0 == table || r.0 == table.Insert(OperationType(description))
    ensures r.0 != table <==> calls == NoFaults && !HasDescription(table.rows, description)
    ensures r.1 == None <==> calls.lookup.Succeeds? && (HasDescription(table.rows, description) || calls.insert.Succeeds?)
    ensures calls == NoFaults ==> HasDescription(r.0.rows, description)
    ensures calls.lookup.FailsWith? ==> r.1 == Some(DbError(calls.lookup.error))
    ensures calls.lookup.Succeeds? && !HasDescription(table.rows, description) && calls.insert.FailsWith? ==>
      r.1 == Some(DbError(calls.insert.error))
  {
    match calls.lookup
    case FailsWith(error) => (table, Some(DbError(error)))
    case Succeeds =>
      if HasDescription(table.rows, description) then (table, None)
      else match calls.insert
        case FailsWith(error) => (table, Some(DbError(error)))
        case Succeeds =>
          var inserted := table.Insert(OperationType(description));
          assert inserted.rows[table.nextId].description == description;
          (inserted, None)
  }

  /** `CreateIfNotExists` never adds a second row for a description already present. */
  lemma CreateIfNotExistsKeepsPresentDescription(
    table: Table<OperationType>, description: string, calls: CreateCalls, other: string)
    requires table.Valid() && HasDescription(table.rows, other)
    ensures RowsWith(CreateIfNotExistsOn(table, description, calls).0.rows, other) == RowsWith(table.rows, other)
  {
    var after := CreateIfNotExistsOn(table, description, calls).0;
    if after != table {
      assert description != other;
      assert after.rows == table.rows[table.nextId := OperationType(description)];
    }
  }

  /** `OperationTypeRepository.CreateIfNotExists`. */
  method CreateIfNotExists(store: Store, description: string, calls: CreateCalls) returns (err: Option<GoError>)
    requires store.Valid()
    modifies store
    ensures store.Valid()
    ensures (store.operationTypes, err) == CreateIfNotExistsOn(old(store.operationTypes), description, calls)
    ensures store.accounts == old(store.accounts) && store.transactions == old(store.transactions)
  {
    match calls.lookup {
      case FailsWith(error) =>
        err := Some(DbError(error));
      case Succeeds =>
        if HasDescription(store.operationTypes.rows, description) {
          err := None;
        } else {
          match calls.insert {
            case FailsWith(error) =>
              err := Some(DbError(error));
            case Succeeds =>
              var id := store.InsertOperationType(OperationType(description));
              err := None;
          }
        }
    }
  }
}
