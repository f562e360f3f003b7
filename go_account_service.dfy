/** The Go `AccountService`: account creation with its store-error branches, and
    the lookup by id. */
module GoAccountService {
  import opened Model
  import opened Persistence
  import GoRepositories

  const DuplicateDocumentNumber := "account with this document number already exists"

  /** `CreateAccount`: a failing existence check is returned as it is; a taken
      document number is refused; a failing insert is returned; otherwise one
      account is created and its new id and document number are returned. No
      failure changes the store. */
  method CreateAccount(store: Store, documentNumber: string, existsCall: StoreCall, createCall: StoreCall)
    returns (r: Result<AccountResponse, GoError>)
    requires store.Valid()
    modifies store
    ensures store.Valid()
    ensures store.operationTypes == old(store.operationTypes) && store.transactions == old(store.transactions)
    ensures r.Err? ==> store.accounts == old(store.accounts)
    ensures existsCall.FailsWith? ==> r == Err(DbError(existsCall.error))
    ensures existsCall.Succeeds? && HasDocumentNumber(old(store.accounts.rows), documentNumber) ==>
      r == Err(Plain(DuplicateDocumentNumber))
    ensures existsCall.Succeeds? && !HasDocumentNumber(old(store.accounts.rows), documentNumber) && createCall.FailsWith? ==>
      r == Err(DbError(createCall.error))
    ensures existsCall.Succeeds? && !HasDocumentNumber(old(store.accounts.rows), documentNumber) && createCall.Succeeds? ==>
      && r.Ok?
      && r.value.documentNumber == documentNumber
      && r.value.accountId !in old(store.accounts.rows)
      && store.accounts == old(store.accounts).Insert(Account(documentNumber))
    ensures r.Ok? ==> GetAccount(store, r.value.accountId, Succeeds) == Ok(r.value)
  {
    match existsCall {
      case FailsWith(error) =>
        return Err(DbError(error));
      case Succeeds =>
    }
    if HasDocumentNumber(store.accounts.rows, documentNumber) {
      return Err(Plain(DuplicateDocumentNumber));
    }
    match createCall {
      case FailsWith(error) =>
        return Err(DbError(error));
      case Succeeds =>
    }
    var id := store.InsertAccount(Account(documentNumber));
    r := Ok(AccountResponse(id, store.accounts.rows[id].documentNumber));
  }

  /** `GetAccount`: the lookup's error as it is (gorm's not-found for an unknown
      id), otherwise the account's id and document number. */
  function GetAccount(store: Store, accountId: nat, lookup: StoreCall): (r: Result<AccountResponse, GoError>)
    reads store
    ensures lookup.FailsWith? ==> r == Err(DbError(lookup.error))
    ensures lookup.Succeeds? && accountId !in store.accounts.rows ==> r == Err(RecordNotFound)
    ensures r.Ok? ==>
      accountId in store.accounts.rows && r.value == AccountResponse(accountId, store.accounts.rows[accountId].documentNumber)
    ensures lookup.Succeeds? && accountId in store.accounts.rows ==> r.Ok?
  {
    match GoRepositories.First(store.accounts, accountId, lookup)
    case Err(error) => Err(error)
    case Ok(account) => Ok(AccountResponse(accountId, account.documentNumber))
  }
}
