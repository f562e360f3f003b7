# Bookkeeping service core, in Dafny

This project models the domain logic of a small payment bookkeeping service. The service exists twice, once in Java (Spring and JPA) and once in Go (gorm). Both keep three tables:

- **accounts**, each identified by an eleven-digit document number;
- **operation types**: "Normal Purchase", "Purchase with installments", "Withdrawal" and "Credit Voucher";
- **transactions**, each referencing an account and an operation type and carrying a signed amount and an event date.

The model covers:

- account creation and lookup;
- request validation for document numbers and amounts;
- transaction creation with its sign rule (an amount is stored negated when the operation type's lower-cased description contains "purchase" or "withdrawal");
- the start-up seeding of operation types, which differs between the two implementations.

The persistence layer is a `Persistence.Store` class holding three `Tables.Table` values. A table is a map from id to row plus the id the next insert receives. The store invariant `Store.Valid` says that:

- ids are positive and lie below that counter;
- no two accounts share a document number (the unique index);
- every transaction references an existing account and operation type (the foreign keys).

Every state-changing operation keeps `Valid`.

Amounts are integer cents. The clock reading is a parameter `now`. In the Go code, each call into the store can fail. The model passes each call's outcome in as a `StoreCall` (`Succeeds` or `FailsWith(error)`), so that every error branch of the Go services is stated.

Modules:

| file | module | contents |
|---|---|---|
| model.dfy | `Model` | records, requests, responses, results, Go error values, the four seed descriptions |
| tables.dfy | `Tables` | a table with a fresh-id counter and its `Insert` |
| store.dfy | `Persistence` | the `Store` class, its invariant and its three inserts |
| text.dfy | `Text` | ASCII lower-casing, substring containment, digits |
| sign_rule.dfy | `SignRule` | the sign rule both transaction services share |
| java_account_request.dfy | `JavaAccountRequest` | the Java document-number constraints |
| go_requests.dfy | `GoRequests` | the Go validation tags on both request types |
| go_repositories.dfy | `GoRepositories` | gorm's `First`, `GetByID`, `CreateIfNotExists` |
| java_account_service.dfy | `JavaAccountService` | `createAccount`, `getAccount`, `findAccountById` |
| go_account_service.dfy | `GoAccountService` | `CreateAccount`, `GetAccount` |
| java_transaction_service.dfy | `JavaTransactionService` | `createTransaction` |
| go_transaction_service.dfy | `GoTransactionService` | `CreateTransaction` |
| java_database_initializer.dfy | `JavaDatabaseInitializer` | `run` |
| go_main.dfy | `GoMain` | `initializeOperationTypes` |

Where the two implementations behave differently, the model follows each one's code:

- **Seeding.** Java seeds only an empty table. Go adds every missing description. `GoMain.AgreesWithJavaOnEmptyTable` and `GoMain.DiffersFromJavaOnPartialTable` state both facts.
- **Failed lookups in Go `CreateTransaction`.** Any failure of the account or operation-type lookup is reported as "account not found" or "operation type not found". This includes a store failure, not just a missing row.
- **Failed reload in Go `CreateTransaction`.** If the reload after a successful insert fails, the error is returned but the inserted row stays in the table.

## Model

| member | source | states |
|---|---|---|
| Tables.Table.Insert | visa-payment-java/src/main/java/com/visa/paymentservice/model/Account.java:11-14 | a save receives a fresh generated id, above every id issued before; every earlier row keeps its id and content; the table grows by exactly one row |
| Persistence.Store.InsertAccount | visa-payment-go/internal/repository/account_repository.go:17-19 | an account is saved under a fresh id; the unique index on the document number and the foreign keys stay intact; the other tables are unchanged |
| Persistence.Store.InsertOperationType | visa-payment-go/internal/repository/operation_type_repository.go:30 | an operation type is saved under a fresh id; the other tables are unchanged |
| Persistence.Store.InsertTransaction | visa-payment-go/internal/repository/transaction_repository.go:17-19 | a transaction whose account and operation type exist is saved under a fresh id, keeping the foreign-key invariant |
| Text.ToLower | visa-payment-java/src/main/java/com/visa/paymentservice/service/TransactionService.java:48 | lower-casing keeps the length and maps each character through ASCII lower-casing |
| Text.ToLowerSlice | visa-payment-java/src/main/java/com/visa/paymentservice/service/TransactionService.java:48 | lower-casing a string and then taking a slice equals lower-casing the slice |
| Text.ToLowerIdempotent | visa-payment-java/src/main/java/com/visa/paymentservice/service/TransactionService.java:48 | lower-casing twice equals lower-casing once |
| Text.ContainsLowered | visa-payment-java/src/main/java/com/visa/paymentservice/service/TransactionService.java:48-51 | if `s` contains `part`, the lower-cased `s` contains the lower-cased `part` |
| Text.MissingFirstCharNotContained | visa-payment-java/src/main/java/com/visa/paymentservice/service/TransactionService.java:51 | a string lacking the first character of a word does not contain that word |
| Text.Contains | visa-payment-java/src/main/java/com/visa/paymentservice/service/TransactionService.java:51 | `contains` / `strings.Contains`: the word occurs at some index of the string |
| SignRule.IsDebitDescription | visa-payment-java/src/main/java/com/visa/paymentservice/service/TransactionService.java:48-51 | the debit test: the lower-cased description contains "purchase" or "withdrawal" |
| JavaAccountRequest.NotBlank | visa-payment-java/src/main/java/com/visa/paymentservice/dto/AccountRequest.java:8 | `@NotBlank`: some character is above U+0020, so trimming leaves something |
| JavaAccountRequest.MatchesDocumentPattern | visa-payment-java/src/main/java/com/visa/paymentservice/dto/AccountRequest.java:9 | `^\d{11}$` over the whole value: exactly eleven characters, each an ASCII digit |
| JavaAccountRequest.IsValidDocumentNumber | visa-payment-java/src/main/java/com/visa/paymentservice/dto/AccountRequest.java:8-9 | both constraints of the `documentNumber` field together |
| GoRequests.IsNumeric | visa-payment-go/internal/dto/account_request.go:4 | the `numeric` tag: an optional sign, a digit run, optionally a point and a second digit run |
| GoRequests.IsValidAccountRequest | visa-payment-go/internal/dto/account_request.go:4 | `required,len=11,numeric`: non-empty, eleven characters, numeric |
| GoRequests.IsValidTransactionRequest | visa-payment-go/internal/dto/transaction_request.go:4-6 | `required` on both ids (non-zero) and `required,gt=0` on the amount (non-zero and positive) |
| Persistence.HasDocumentNumber | visa-payment-go/internal/repository/account_repository.go:39-43 | `ExistsByDocumentNumber` / `existsByDocumentNumber`: some account holds the document number |
| GoRepositories.HasDescription | visa-payment-go/internal/repository/operation_type_repository.go:28 | the `Where("description = ?")` lookup finds a row: some row carries the description |
| SignRule.SignedAmount | visa-payment-java/src/main/java/com/visa/paymentservice/service/TransactionService.java:47-53 | the stored amount is the supplied amount or its negation (negated at most once); for a positive amount it is negative exactly when the description is a purchase or withdrawal, and positive exactly otherwise |
| SignRule.TriggerWordInAnyCase | visa-payment-java/src/main/java/com/visa/paymentservice/service/TransactionService.java:48-51 | a description containing "purchase" or "withdrawal" in any mix of letter cases is a debit |
| SignRule.LoweredDescriptionSameSign | visa-payment-go/internal/services/transaction_service.go:44-50 | a description and its lower-cased form give the same stored amount |
| SignRule.NormalPurchaseIsDebit | visa-payment-java/src/main/java/com/visa/paymentservice/config/DatabaseInitializer.java:19 | "Normal Purchase" is a debit description |
| SignRule.InstallmentsIsDebit | visa-payment-java/src/main/java/com/visa/paymentservice/config/DatabaseInitializer.java:20 | "Purchase with installments" is a debit description |
| SignRule.WithdrawalIsDebit | visa-payment-java/src/main/java/com/visa/paymentservice/config/DatabaseInitializer.java:21 | "Withdrawal" is a debit description |
| SignRule.CreditVoucherIsNotDebit | visa-payment-java/src/main/java/com/visa/paymentservice/config/DatabaseInitializer.java:22 | "Credit Voucher" is not a debit description |
| SignRule.NormalPurchaseStoredNegative | visa-payment-java/src/test/java/com/visa/paymentservice/controller/TransactionControllerTest.java:75 | 50.00 under "Normal Purchase" is stored as -50.00 |
| SignRule.CreditVoucherStoredPositive | visa-payment-java/src/test/java/com/visa/paymentservice/controller/TransactionControllerTest.java:91 | 25.00 under "Credit Voucher" is stored as 25.00 |
| SignRule.SeededSignPolicy | visa-payment-java/src/main/java/com/visa/paymentservice/service/TransactionService.java:50-54 | of the four seeded operation types the first three are debits and the credit voucher is not |
| JavaAccountRequest.PatternImpliesNotBlank | visa-payment-java/src/main/java/com/visa/paymentservice/dto/AccountRequest.java:8-9 | every value matching `^\d{11}$` is non-blank, so the two constraints together accept exactly the eleven-digit strings |
| JavaAccountRequest.DocumentNumberExamples | visa-payment-java/src/test/java/com/visa/paymentservice/controller/AccountControllerTest.java:37-54 | "12345678900" is accepted and "123" is rejected |
| GoRequests.ElevenDigitsPassGoRule | visa-payment-go/internal/dto/account_request.go:4 | every string of exactly eleven ASCII digits passes `required,len=11,numeric` |
| GoRequests.DocumentNumberExamples | visa-payment-go/internal/dto/account_request.go:4 | "12345678900" passes; the empty string (`required`) and "123" (`len=11`) fail |
| GoRequests.ValidAmountIsPositiveMagnitude | visa-payment-go/internal/dto/transaction_request.go:4-6 | a request passing the tags has a strictly positive amount, so the stored amount is negative exactly for a debit and positive exactly otherwise |
| GoRepositories.First | visa-payment-go/internal/repository/account_repository.go:21-28 | a primary-key lookup returns the row under the id, gorm's not-found error when there is none, or the store's error when the call fails |
| GoRepositories.OperationTypeById | visa-payment-go/internal/repository/operation_type_repository.go:17-24 | `GetByID` returns the row with that id, not-found when it is absent, and the store's error message when the call fails |
| GoRepositories.CreateIfNotExistsOn | visa-payment-go/internal/repository/operation_type_repository.go:26-33 | the table changes (by one insert of the description) exactly when both calls succeed and no row has the description; a failed lookup returns that lookup's own error, and a failed insert after a miss returns that insert's own error; a present description returns no error; existing rows are never changed |
| GoRepositories.CreateIfNotExistsKeepsPresentDescription | visa-payment-go/internal/repository/operation_type_repository.go:26-33 | the set of rows carrying an already-present description is unchanged, so no duplicate is ever created |
| GoRepositories.CreateIfNotExists | visa-payment-go/internal/repository/operation_type_repository.go:26-33 | the store's operation-type table and the returned error are those of `CreateIfNotExistsOn`; the other tables are unchanged |
| JavaAccountService.CreateAccount | visa-payment-java/src/main/java/com/visa/paymentservice/service/AccountService.java:20-30 | a taken document number raises the error and saves nothing; otherwise exactly one account is saved under a fresh id and the response carries that id and the same document number; `getAccount` on that id returns the response; document numbers stay unique |
| JavaAccountService.GetAccount | visa-payment-java/src/main/java/com/visa/paymentservice/service/AccountService.java:32-36 | a response is present exactly when the id exists, and then carries that id and the account's document number |
| JavaAccountService.FindAccountById | visa-payment-java/src/main/java/com/visa/paymentservice/service/AccountService.java:38-41 | the stored account is returned exactly when the id exists |
| JavaAccountService.NeverIssuedIdNotFound | visa-payment-java/src/test/java/com/visa/paymentservice/controller/AccountControllerTest.java:84-86 | an id the store never issued is found by neither lookup |
| JavaAccountService.CreateDuplicate | visa-payment-java/src/test/java/com/visa/paymentservice/controller/AccountControllerTest.java:58-69 | after a first account with a document number, a second request with it is refused, and exactly one account holds it |
| GoAccountService.CreateAccount | visa-payment-go/internal/services/account_service.go:20-43 | an existence-check error is returned as is; a taken number gives "account with this document number already exists"; an insert error is returned; no failure changes the store; otherwise one account is inserted and its fresh id and document number are returned, and `GetAccount` finds them |
| GoAccountService.GetAccount | visa-payment-go/internal/services/account_service.go:45-55 | the lookup's error is returned (not-found for an unknown id); otherwise the id and document number of that account |
| JavaTransactionService.CreateTransaction | visa-payment-java/src/main/java/com/visa/paymentservice/service/TransactionService.java:30-58 | a missing account is reported first, then a missing operation type, and neither saves anything; otherwise exactly one transaction with the request's references, the signed amount and the clock reading is saved under the fresh id the store issued, and the returned id is that id, so the returned transaction is the stored row; it comes back with its account and operation type; the other tables are unchanged |
| GoTransactionService.CreateTransaction | visa-payment-go/internal/services/transaction_service.go:30-74 | a failed account lookup gives "account not found" and one of the operation type gives "operation type not found", in that order and saving nothing; a failed insert is returned and saves nothing; after an insert the row with the signed amount stays; a failed reload is returned; a successful one returns exactly the stored row under its fresh id |
| JavaDatabaseInitializer.Seeded | visa-payment-java/src/main/java/com/visa/paymentservice/config/DatabaseInitializer.java:18-23 | an empty table receives exactly four rows; a non-empty table is left as it was; existing rows are never changed or removed |
| JavaDatabaseInitializer.FourInsertsInOrder | visa-payment-java/src/main/java/com/visa/paymentservice/config/DatabaseInitializer.java:19-22 | four saves in a row land under four consecutive ids, in call order |
| JavaDatabaseInitializer.EmptyTableSeededInOrder | visa-payment-java/src/main/java/com/visa/paymentservice/config/DatabaseInitializer.java:18-22 | on an empty table the four descriptions are saved in list order under consecutive fresh ids |
| JavaDatabaseInitializer.Run | visa-payment-java/src/main/java/com/visa/paymentservice/config/DatabaseInitializer.java:16-24 | `run` leaves the operation-type table `Seeded` and the other tables unchanged |
| JavaDatabaseInitializer.RunTwiceIsRunOnce | visa-payment-java/src/main/java/com/visa/paymentservice/config/DatabaseInitializer.java:18-23 | running the initializer twice gives the same table as running it once |
| GoMain.Seeded | visa-payment-go/main.go:116-118 | the calls in turn, whatever their outcome, never change or remove an existing row |
| GoMain.CreateEach | visa-payment-go/main.go:116-118 | the loop calls `CreateIfNotExists` once per description in list order, ignoring its errors, and leaves the other tables unchanged |
| GoMain.InitializeOperationTypes | visa-payment-go/main.go:108-119 | the operation-type table ends as the four seed descriptions processed in order |
| GoMain.AllPresentWithoutFaults | visa-payment-go/main.go:116-118 | with no store failure every description is present afterwards, whatever the table held before |
| GoMain.NoChangeWhenAllPresent | visa-payment-go/main.go:116-118 | when every description is already present nothing changes, even when store calls fail |
| GoMain.SecondRunAddsNothing | visa-payment-go/main.go:108-119 | a second run after a fault-free first run leaves the table unchanged |
| GoMain.PresentDescriptionNotDuplicated | visa-payment-go/main.go:116-118 | a description that already had rows has the same rows afterwards |
| GoMain.InsertAll | visa-payment-go/main.go:109-118 | plain inserts in order: every new row carries one of the descriptions |
| GoMain.FreshDescriptionsAllInserted | visa-payment-go/main.go:116-118 | when the pairwise distinct descriptions are all absent and nothing fails, each is inserted once, in list order |
| GoMain.SeedDescriptionsDistinct | visa-payment-go/main.go:109-114 | the four seed descriptions are pairwise distinct |
| GoMain.InsertAllFour | visa-payment-go/main.go:116-118 | inserting four descriptions in order is four inserts in a row |
| GoMain.AgreesWithJavaOnEmptyTable | visa-payment-go/main.go:108-119 | on an empty table with no store failure the Go seeding produces the same table as the Java initializer |
| GoMain.DiffersFromJavaOnPartialTable | visa-payment-go/main.go:116-118 | with only "Withdrawal" present, the Java initializer adds nothing, while the other three seed descriptions are absent and after the Go seeding all four are present |

## Left out

- HTTP layer: controllers, handlers, the router, JSON binding and status codes are left out. The services return an error datatype in their place.
- Persistence framework: JPA, gorm, `AutoMigrate` and the database connection become the `Store` class. Ids are only promised to be fresh and increasing, not to match a real database's identity values.
- Numeric representation: `BigDecimal` (precision 10, scale 2) and `float64` amounts are integer cents. Rounding and column overflow are not modelled.
- Id width: ids are unbounded naturals. `uint` and `Long` overflow is not modelled.
- Negative ids: Java ids are signed `Long`, so `getAccount` and `findAccountById` accept a negative id and return empty for it. Ids here are naturals, so that call is outside the model's domain.
- Locale: lower-casing is ASCII only. Java's `toLowerCase` uses the default locale, and under a Turkish or Azeri locale 'I' lowers to a dotless 'ı'. Under such a locale "WITHDRAWAL" is not a debit in Java, while `SignRule.IsDebitDescription` makes it one. The model assumes a locale that lowers ASCII letters to ASCII letters.
- Clock: the event date is the parameter `now`. `CreatedAt`, `UpdatedAt` and the `DeletedAt` soft delete are not modelled.
- Concurrency: the check-then-insert race on document numbers and the transaction boundaries are not modelled. Each operation runs alone.
- JavaAccountService.CreateAccount: JPA exceptions from `save` are not modelled. The Java services have no store-failure parameters.
- JavaTransactionService.CreateTransaction: JPA exceptions from `save` are not modelled.
- JavaDatabaseInitializer.Run: a failing `save` is not modelled. `run` is not transactional, so each save commits on its own. If, say, the third save throws, two rows stay and start-up aborts. Every later start then sees a non-empty table and never adds the missing two. The model promises only the fault-free outcome `Seeded`. The Go loop, by contrast, would add the missing rows on the next start (`GoMain.AllPresentWithoutFaults`).
- A null document number is not modelled. Strings are never null here.
- Bean validation on the entities at persist time is not modelled. Validation is stated only on the request types.
- Unicode: Unicode case folding of non-ASCII letters by `toLowerCase` and `strings.ToLower` is not modelled.
- GoRequests.ElevenDigitsPassGoRule: only one direction is claimed. The `numeric` tag is modelled by the validator library's published pattern, and what that tag accepts beyond eleven digits (a sign, a decimal point) is not claimed to match the library exactly.
- The Java `TransactionRequest` class and its amount constraint are not part of this model. The Go request rule, which demands a positive amount as the Java controller test expects, stands for both.
- gorm's association upsert when a transaction is created with embedded `Account` and `OperationType` values is not modelled. The reload returns the stored row with its references resolved from the store.
- The unused queries `GetByDocumentNumber`, `GetByAccountID` and `findByAccountAccountId` are left out.
