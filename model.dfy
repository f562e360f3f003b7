/** Values shared by the Java and the Go implementation of the bookkeeping service:
    the three entities, the request and response shapes, the failure of a call
    into the relational store, and Go's error values. Amounts are integer cents;
    a clock reading is an integer supplied by the caller. */
module Model {

  datatype Option<+T> = None | Some(value: T)

  datatype Result<+T, +E> = Ok(value: T) | Err(error: E)

  /** An error raised by the relational store itself (lost connection, timeout, ...). */
  datatype StoreError = StoreError(message: string)

  /** The outcome of one call into the relational store. The store's own reasons
      for failing are not visible, so each call that can fail is given this as a
      parameter. */
  datatype StoreCall = Succeeds | FailsWith(error: StoreError)

  /** A customer account; its id is its key in the account table. */
  datatype Account = Account(documentNumber: string)

  /** A kind of operation; its id is its key in the operation-type table. */
  datatype OperationType = OperationType(description: string)

  /** A stored transaction: the two references, the signed amount in cents and
      the event date taken from the clock when it was created. */
  datatype Transaction = Transaction(accountId: nat, operationTypeId: nat, amount: int, eventDate: int)

  /** The body of a transaction-creation request; the amount is in cents. */
  datatype TransactionRequest = TransactionRequest(accountId: nat, operationTypeId: nat, amount: int)

  /** The account id and document number handed back by both account services. */
  datatype AccountResponse = AccountResponse(accountId: nat, documentNumber: string)

  /** A persisted transaction together with the account and the operation type it
      references, as both transaction services return it. */
  datatype TransactionView = TransactionView(
    transactionId: nat,
    transaction: Transaction,
    account: Account,
    operationType: OperationType)

  /** The four operation types both seeders write, in the order they write them. */
  const SeedDescriptions: seq<string> :=
    ["Normal Purchase", "Purchase with installments", "Withdrawal", "Credit Voucher"]

  /** A Go `error`: gorm's not-found sentinel, an error coming from the store,
      or one built with `errors.New`. Callers only look at its text. */
  datatype GoError = RecordNotFound | DbError(cause: StoreError) | Plain(text: string) {
    function Error(): string {
      match this
      case RecordNotFound => "record not found"
      case DbError(cause) => cause.message
      case Plain(text) => text
    }
  }
}
