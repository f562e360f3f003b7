/** The Java `AccountService`: account creation, a check-then-save guarded by the
    document number, and two read-only lookups by id. */
module JavaAccountService {
  import opened Model
  import opened Persistence

  /** The `IllegalArgumentException` raised when the document number is taken. */
  datatype AccountError = DocumentNumberExists(documentNumber: string)

  /** `createAccount`: refuses a document number already in use and saves
      nothing; otherwise saves exactly one account and answers with its new id
      and the same document number. The store invariant, and with it the
      uniqueness of document numbers, holds after every call. */
  method CreateAccount(store: Store, documentNumber: string) returns (r: Result<AccountResponse, AccountError>)
    requires store.Valid()
    modifies store
    ensures store.Valid()
    ensures store.operationTypes == old(store.operationTypes) && store.transactions == old(store.transactions)
    ensures HasDocumentNumber(old(store.accounts.rows), documentNumber) ==>
      r == Err(DocumentNumberExists(documentNumber)) && store.accounts == old(store.accounts)
    ensures !HasDocumentNumber(old(store.accounts.rows), documentNumber) ==>
      && r.Ok?
      && r.value.documentNumber == documentNumber
      && r.value.accountId !in old(store.accounts.rows)
      && store.accounts == old(store.accounts).Insert(Account(documentNumber))
    ensures r.Ok? ==> GetAccount(store, r.value.accountId) == Some(r.value)
  {
    if HasDocumentNumber(store.accounts.rows, documentNumber) {
      return Err(DocumentNumberExists(documentNumber));
    }
    var id := store.InsertAccount(Account(documentNumber));
    r := Ok(AccountResponse(id, store.accounts.rows[id].documentNumber));
  }

  /** `getAccount`: the id and document number of the account under that id, or
      nothing when there is none. */
  function GetAccount(store: Store, accountId: nat): (r: Option<AccountResponse>)
    reads store
    ensures r.Some? <==> accountId in store.accounts.rows
    ensures r.Some? ==> r.value.accountId == accountId
    ensures r.Some? ==> accountId in store.accounts.rows && r.value.documentNumber == store.accounts.rows[accountId].documentNumber
  {
    if accountId in store.accounts.rows
    then Some(AccountResponse(accountId, store.accounts.rows[accountId].documentNumber))
    else None
  }

  /** `findAccountById`: the stored account under that id, if any. */
  function FindAccountById(store: Store, accountId: nat): (r: Option<Account>)
    reads store
    ensures r.Some? <==> accountId in store.accounts.rows
    ensures r.Some? ==> accountId in store.accounts.rows && r.value == store.accounts.rows[accountId]
  {
    if accountId in store.accounts.rows then Some(store.accounts.rows[accountId]) else None
  }

  /** An id the store never issued (zero, or at or above the next id) is not found. */
  lemma NeverIssuedIdNotFound(store: Store, accountId: nat)
    requires store.Valid()
    requires accountId == 0 || accountId >= store.accounts.nextId
    ensures GetAccount(store, accountId) == None && FindAccountById(store, accountId) == None
  {
  }

  /** A store in which the document number is already taken refuses a second
      account with it, and afterwards exactly one account holds it. */
  method CreateDuplicate(store: Store, documentNumber: string) returns (first: Result<AccountResponse, AccountError>, second: Result<AccountResponse, AccountError>)
    requires store.Valid() && !HasDocumentNumber(store.accounts.rows, documentNumber)
    modifies store
    ensures first.Ok? && second == Err(DocumentNumberExists(documentNumber))
    ensures RowsHolding(store.accounts.rows, documentNumber) == {first.value.accountId}
  {
    first := CreateAccount(store, documentNumber);
    assert HasDocumentNumber(store.accounts.rows, documentNumber) by {
      assert store.accounts.rows[first.value.accountId].documentNumber == documentNumber;
    }
    second := CreateAccount(store, documentNumber);
  }

  ghost function RowsHolding(accounts: map<nat, Account>, documentNumber: string): set<nat> {
    set id | id in accounts && accounts[id].documentNumber == documentNumber
  }
}
