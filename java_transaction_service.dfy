/** The Java `TransactionService`: transaction creation. The account is looked up
    first, then the operation type; the supplied amount is negated when the
    operation type's lower-cased description names a purchase or a withdrawal;
    then exactly one transaction is saved and returned. */
module JavaTransactionService {
  import opened Model
  import opened Text
  import opened Persistence
  import opened SignRule

  /** The two `IllegalArgumentException`s `createTransaction` raises. */
  datatype TransactionError = AccountNotFound(accountId: nat) | OperationTypeNotFound(operationTypeId: nat)

  /** `createTransaction`. A missing account is reported before a missing
      operation type, and either failure saves nothing. On success the saved
      transaction carries the request's references, the amount signed by the
      operation type's description and the clock reading; it is returned with
      the account and operation type it references, and no other table changes. */
  method CreateTransaction(store: Store, request: TransactionRequest, now: int)
    returns (r: Result<TransactionView, TransactionError>)
    requires store.Valid()
    modifies store
    ensures store.Valid()
    ensures store.accounts == old(store.accounts) && store.operationTypes == old(store.operationTypes)
    ensures r.Err? ==> store.transactions == old(store.transactions)
    ensures request.accountId !in old(store.accounts.rows) ==> r == Err(AccountNotFound(request.accountId))
    ensures request.accountId in old(store.accounts.rows) && request.operationTypeId !in old(store.operationTypes.rows) ==>
      r == Err(OperationTypeNotFound(request.operationTypeId))
    ensures request.accountId in old(store.accounts.rows) && request.operationTypeId in old(store.operationTypes.rows) ==>
      && r.Ok?
      && r.value.transactionId == old(store.transactions.nextId)
      && r.value.transactionId !in old(store.transactions.rows)
      && r.value.transaction == Transaction(
           request.accountId,
           request.operationTypeId,
           SignedAmount(store.operationTypes.rows[request.operationTypeId].description, request.amount),
           now)
      && store.transactions == old(store.transactions).Insert(r.value.transaction)
      && r.value.account == store.accounts.rows[request.accountId]
      && r.value.operationType == store.operationTypes.rows[request.operationTypeId]
    ensures r.Ok? ==>
      && r.value.transactionId in store.transactions.rows
      && store.transactions.rows[r.value.transactionId] == r.value.transaction
  {
    if request.accountId !in store.accounts.rows {
      return Err(AccountNotFound(request.accountId));
    }
    if request.operationTypeId !in store.operationTypes.rows {
      return Err(OperationTypeNotFound(request.operationTypeId));
    }
    var account := store.accounts.rows[request.accountId];
    var operationType := store.operationTypes.rows[request.operationTypeId];

    var amount := request.amount;
    var description := ToLower(operationType.description);
    if Contains(description, "purchase") || Contains(description, "withdrawal") {
      amount := -amount;
    }

    var transaction := Transaction(request.accountId, request.operationTypeId, amount, now);
    var id := store.InsertTransaction(transaction);
    r := Ok(TransactionView(id, store.transactions.rows[id], account, operationType));
  }
}
