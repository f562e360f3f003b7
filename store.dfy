/** The relational store both implementations persist into, reduced to three
    tables: accounts, operation types and transactions. The unique index on an
    account's document number and the foreign keys of a transaction become the
    store invariant `Valid`. */
module Persistence {
  import opened Model
  import opened Tables

  /** Whether some account already holds this document number (`existsByDocumentNumber`). */
  predicate HasDocumentNumber(accounts: map<nat, Account>, documentNumber: string) {
    exists id :: id in accounts && accounts[id].documentNumber == documentNumber
  }

  /** The unique index on `document_number`: no two accounts share one. */
  ghost predicate UniqueDocumentNumbers(accounts: map<nat, Account>) {
    forall i, j :: i in accounts && j in accounts && accounts[i].documentNumber == accounts[j].documentNumber ==> i == j
  }

  /** The foreign keys of the transaction table: no transaction references a
      missing account or operation type. */
  ghost predicate NoOrphans(
    transactions: map<nat, Transaction>, accounts: map<nat, Account>, operationTypes: map<nat, OperationType>)
  {
    forall id :: id in transactions ==>
      transactions[id].accountId in accounts && transactions[id].operationTypeId in operationTypes
  }

  class Store {
    var accounts: Table<Account>
    var operationTypes: Table<OperationType>
    var transactions: Table<Transaction>

    ghost predicate Valid()
      reads this
    {
      && accounts.Valid()
      && operationTypes.Valid()
      && transactions.Valid()
      && UniqueDocumentNumbers(accounts.rows)
      && NoOrphans(transactions.rows, accounts.rows, operationTypes.rows)
    }

    /** A freshly migrated, empty store. */
    constructor ()
      ensures Valid()
      ensures accounts == Empty() && operationTypes == Empty() && transactions == Empty()
    {
      accounts := Empty();
      operationTypes := Empty();
      transactions := Empty();
    }

    /** Saves an account; the unique index admits it only under a new document number. */
    method InsertAccount(account: Account) returns (id: nat)
      requires Valid()
      requires !HasDocumentNumber(accounts.rows, account.documentNumber)
      modifies this
      ensures Valid()
      ensures id == old(accounts.nextId) && accounts == old(accounts).Insert(account)
      ensures operationTypes == old(operationTypes) && transactions == old(transactions)
    {
      id := accounts.nextId;
      accounts := accounts.Insert(account);
    }

    /** Saves an operation type; descriptions carry no constraint. */
    method InsertOperationType(operationType: OperationType) returns (id: nat)
      requires Valid()
      modifies this
      ensures Valid()
      ensures id == old(operationTypes.nextId) && operationTypes == old(operationTypes).Insert(operationType)
      ensures accounts == old(accounts) && transactions == old(transactions)
    {
      id := operationTypes.nextId;
      operationTypes := operationTypes.Insert(operationType);
    }

    /** Saves a transaction; the foreign keys admit it only when both references resolve. */
    method InsertTransaction(transaction: Transaction) returns (id: nat)
      requires Valid()
      requires transaction.accountId in accounts.rows && transaction.operationTypeId in operationTypes.rows
      modifies this
      ensures Valid()
      ensures id == old(transactions.nextId) && transactions == old(transactions).Insert(transaction)
      ensures accounts == old(accounts) && operationTypes == old(operationTypes)
    {
      id := transactions.nextId;
      transactions := transactions.Insert(transaction);
    }
  }
}
