/** The Go `TransactionService`: the same creation rule as the Java service, with
    Go's error values, the insert's error passed back, and the new transaction
    re-read by its id before it is returned. */
module GoTransactionService {
  import opened Model
  import opened Text
  import opened Persistence
  import opened SignRule
  import opened GoRepositories

  const AccountNotFound := "account not found"
  const OperationTypeNotFound := "operation type not found"

  /** The four store calls `CreateTransaction` makes, in order: the account
      lookup, the operation-type lookup, the insert and the reload. */
  datatype TransactionCalls = TransactionCalls(
    accountLookup: StoreCall,
    operationTypeLookup: StoreCall,
    insert: StoreCall,
    reload: StoreCall)

  /** `CreateTransaction`. Any failure of the account lookup reads "account not
      found", and of the operation-type lookup "operation type not found"; both
      are checked in that order and save nothing. A failed insert is returned and
      saves nothing. After a successful insert the row stays; a failed reload is
      returned, and a successful one returns exactly the stored row. */
  method CreateTransaction(store: Store, request: TransactionRequest, now: int, calls: TransactionCalls)
    returns (r: Result<TransactionView, GoError>)
    requires store.Valid()
    modifies store
    ensures store.Valid()
    ensures store.accounts == old(store.accounts) && store.operationTypes == old(store.operationTypes)
    ensures First(old(store.accounts), request.accountId, calls.accountLookup).Err? ==>
      r == Err(Plain(AccountNotFound)) && store.transactions == old(store.transactions)
    ensures (&& First(old(store.accounts), request.accountId, calls.accountLookup).Ok?
             && First(old(store.operationTypes), request.operationTypeId, calls.operationTypeLookup).Err?) ==>
      r == Err(Plain(OperationTypeNotFound)) && store.transactions == old(store.transactions)
    ensures (&& First(old(store.accounts), request.accountId, calls.accountLookup).Ok?
             && First(old(store.operationTypes), request.operationTypeId, calls.operationTypeLookup).Ok?) ==>
      var created := Transaction(
        request.accountId,
        request.operationTypeId,
        SignedAmount(store.operationTypes.rows[request.operationTypeId].description, request.amount),
        now);
      && (calls.insert.FailsWith? ==> r == Err(DbError(calls.insert.error)) && store.transactions == old(store.transactions))
      && (calls.insert.Succeeds? ==> store.transactions == old(store.transactions).Insert(created))
      && (calls.insert.Succeeds? && calls.reload.FailsWith? ==> r == Err(DbError(calls.reload.error)))
      && (calls.insert.Succeeds? && calls.reload.Succeeds? ==>
            r == Ok(TransactionView(
                   old(store.transactions.nextId),
                   created,
                   store.accounts.rows[request.accountId],
                   store.operationTypes.rows[request.operationTypeId])))
    ensures r.Ok? ==>
      && r.value.transactionId !in old(store.transactions.rows)
      && r.value.transactionId in store.transactions.rows
      && store.transactions.rows[r.value.transactionId] == r.value.transaction
  {
    var account: Account;
    match First(store.accounts, request.accountId, calls.accountLookup) {
      case Err(_) => return Err(Plain(AccountNotFound));
      case Ok(found) => account := found;
    }
    var operationType: OperationType;
    match OperationTypeById(store, request.operationTypeId, calls.operationTypeLookup) {
      case Err(_) => return Err(Plain(OperationTypeNotFound));
      case Ok(found) => operationType := found;
    }

    var amount := request.amount;
    var description := ToLower(operationType.description);
    if Contains(description, "purchase") || Contains(description, "withdrawal") {
      amount := -amount;
    }

    var transaction := Transaction(request.accountId, request.operationTypeId, amount, now);
    match calls.insert {
      case FailsWith(error) => return Err(DbError(error));
      case Succeeds =>
    }
    var id := store.InsertTransaction(transaction);

    match First(store.transactions, id, calls.reload) {
      case Err(error) => return Err(error);
      case Ok(reloaded) =>
        r := Ok(TransactionView(
          id,
          reloaded,
          store.accounts.rows[reloaded.accountId],
          store.operationTypes.rows[reloaded.operationTypeId]));
    }
  }
}
