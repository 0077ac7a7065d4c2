# Library borrow/return ledger

A model of the core of a small Rails library API. The API keeps books, users and a ledger of borrow and return transactions. The whole database is one immutable `State`. It holds the books by id (title and an `available`/`borrowed` status), the users by id (account number and balance) and the transactions table as a sequence of entries in insertion order. An entry holds the user, the book, the type, the fee and `created_at`.

- Money is in integer cents, because the balance and fee columns are `decimal(10,2)`. The fixed fee 10.0 is `1000`.
- Time is an abstract integer. "Now", the bounds of the current day and the bounds of the current month and year are parameters.
- Each database transaction of the source is a pure function that returns `Result`. A raised `ActiveRecord::RecordInvalid` is a `Failure`. The controller replies with the state unchanged, so the rollback is all-or-nothing by construction. The contracts prove that nothing partial is ever returned.

Modules, one per source file or concern:

- `Wrappers`: `Option` and `Result`.
- `Ledger`: the transactions table, the `transaction_type` enum, and the two aggregates the application runs over it. These are `count` and `sum(:fee_amount)` under a `where` chain with an inclusive `created_at: start..end` range, modelled as a `Query`.
- `Library`: the entities, the `status` enum, the error kinds, and Ruby's `blank?` as used by `presence: true`.
- `Users` (app/models/user.rb): the validations, `generate_account_number`, `create`, `period_range`, `borrowed_books_count_in`, `amount_spent_in` and `report_for`.
- `Books` (app/models/book.rb): the validation, `borrowed_by` and `income`, plus the corrected current-loan query described under Findings.
- `Transactions` (app/models/transaction.rb): `DEFAULT_BORROW_FEE`, the entry validations, `save!`, `update!`, `process_borrow!` and `process_return!`.
- `TransactionsController`: the guards and the guard-then-process flow of `borrow_book` and `return_book`.
- `Invariants`: the state invariants (valid records, non-negative balances, status/ledger pairing) and their preservation by the guarded actions.
- `Scenarios`: concrete instances, proved, that mirror the repository's RSpec examples.

Behaviour of the code worth noting:

- `borrowed_by` does not exclude books whose loan was returned (see Findings).
- A return charges the requesting user, not the borrower.
- A book's status is not tied to the ledger in every state: a book can be created borrowed, and entries can be written directly. The model proves the pairing as the invariant `Paired`, which the guarded actions preserve.
- The account-number loop retries without limit. The model's `GenerationExhausted` only marks the end of the finite candidate sequence.
- In `borrow_book`, `User.find` and `Book.find` raise before the guard runs. So the guard's "User not found" and "Book not found" messages are never the reply. `TransactionsController.BorrowBook` proves this.

## Model

| member | source | states |
|---|---|---|
| Ledger.KindFromCode | app/models/transaction.rb:7-9 | only the stored codes 0 and 1 decode to a transaction type, and each decodes back to its own code |
| Ledger.KindCodeRoundTrip | app/models/transaction.rb:7 | decoding the stored code of a transaction type gives that type back |
| Ledger.Count | app/models/user.rb:43-47 | the row count of a query never exceeds the ledger's length |
| Ledger.CountIsCardinality | app/models/user.rb:43-47 | the count of a query is the number of ledger positions it selects |
| Ledger.CountZeroIffNoneMatch | app/models/user.rb:43-47 | the count is 0 exactly when no entry is selected |
| Ledger.SumFees | app/models/book.rb:26-29 | a fee sum over a ledger whose fees are all non-negative is non-negative |
| Ledger.SumNoneMatch | app/models/book.rb:26-29 | with nothing selected, the fee sum is 0 |
| Ledger.CountConcat | app/models/user.rb:43-47 | counting distributes over concatenation of ledgers |
| Ledger.SumConcat | app/models/user.rb:49-54 | fee summing distributes over concatenation of ledgers |
| Ledger.UnselectedEntryIgnored | app/models/user.rb:44-45 | an entry the where-chain rejects (other owner, other book, other type, outside the range) changes neither aggregate, wherever it sits |
| Ledger.SumOfUniformFees | app/models/user.rb:49-54 | when every selected entry carries the same fee, the sum is the count times that fee |
| Ledger.WideningRangeIsMonotone | app/models/book.rb:28 | widening the inclusive created_at range never lowers the count, nor the fee sum when fees are non-negative |
| Library.StatusFromCode | app/models/book.rb:7 | only the stored codes 0 and 1 decode to a status, and each decodes back to its own code |
| Library.StatusCodeRoundTrip | app/models/book.rb:13 | a status is exactly one of available and borrowed, and its stored code decodes back to it |
| Users.ValidUser | app/models/user.rb:12-13 | a user passes its validations exactly when the balance is at least 0, the account number is not blank, and no other stored user holds that number |
| Users.AccountNumbers | app/models/user.rb:59 | a token is taken exactly when some stored user holds it |
| Users.GenerateAccountNumber | app/models/user.rb:56-61 | an assigned account number is kept; otherwise the result is the first candidate token no user holds, and generation fails only when every candidate is taken |
| Users.CreateUser | app/models/user.rb:8-13 | creation succeeds exactly when the balance is at least 0 and the account number kept or generated is present and held by no stored user; a created user has the given balance and passes the validations; a generated account number is held by no earlier user; a negative balance or a blank account number is rejected; nothing else changes |
| Users.PeriodRange | app/models/user.rb:29-41 | only 'monthly' and 'annual' are accepted and resolve to the month's and the year's bounds; any other token raises the invalid-period error |
| Users.BorrowedBooksCountIn | app/models/user.rb:43-47 | the number of this user's borrow entries with start <= created_at <= end, both bounds inclusive; 0 exactly when there is none |
| Users.AmountSpentIn | app/models/user.rb:49-54 | the fee sum over this user's return entries in the range is non-negative, and 0 when there is none |
| Users.ReportFor | app/models/user.rb:15-25 | succeeds exactly for the two period tokens; echoes the period and the bounds it used; counts this user's borrow entries in the inclusive range; with no entries in range both figures are 0 |
| Users.ReportIgnoresForeignEntries | app/models/user.rb:44-45 | entries of other users, and entries outside the period, do not change the report |
| Users.ReportAfterOwnEntryInPeriod | app/models/user.rb:15-25 | one more own entry inside the period adds one to the report's borrowed-books count if it is a borrow, or its fee to the amount spent if it is a return, and changes nothing else of the report |
| Users.ReportAfterOwnEntry | app/models/user.rb:49-54 | one more own borrow entry in range adds one to the count; one more own return entry adds its fee to the amount spent |
| Books.StatusChangeKeepsValidity | app/models/book.rb:12-13 | the validations look at the title only, so the status update run by `borrowed!`/`available!` never changes whether a book is valid |
| Books.BorrowedBy | app/models/book.rb:15-20 | a book is listed exactly when its status is borrowed and some borrow entry by the user exists, with no check for a later return; each book appears once |
| Books.Income | app/models/book.rb:22-30 | the income over non-negative fees is non-negative; it is 0 when no return entry of the book lies in the range |
| Books.IncomeDefaultsEachBound | app/models/book.rb:23-24 | an omitted start means the start of the current day, and an omitted end the end of the day, each whatever the other bound is |
| Books.IncomeIgnoresOtherEntries | app/models/book.rb:26-28 | borrow entries, entries of other books, and returns of this book outside the inclusive range never change the income |
| Books.IncomeAfterReturn | app/models/book.rb:26-29 | a return of the book within the range adds exactly its fee to the income |
| Books.LastEntryFor | app/models/book.rb:15-20 | an entry about the book that no later entry about the book follows, absent exactly when the book has no entry |
| Books.CurrentlyBorrowedBy | app/models/book.rb:15-20 | a book is listed exactly when it is borrowed and its latest entry is a borrow by the user; the result is contained in `borrowed_by` |
| Books.CurrentlyBorrowedByIsExclusive | app/models/book.rb:15-20 | two users never both hold the current loan on a book |
| Transactions.EntryStaysValid | app/models/transaction.rb:4-10 | a saved transaction row stays valid while users and books are only updated or added, since its validations ask only that its user and book exist and that its fee is at least 0 |
| Transactions.SaveEntry | app/models/transaction.rb:4-10 | a transaction row is saved exactly when its user and book exist and its fee is at least 0; a save appends exactly that row and changes nothing else |
| Transactions.UpdateBookStatus | app/models/book.rb:12-13 | a status update commits exactly when the book passes its validations, and changes only that book's status |
| Transactions.UpdateBalance | app/models/user.rb:12-13 | a balance update commits exactly when the user passes its validations, so never to a negative balance, and changes only that user's balance |
| Transactions.ProcessBorrow | app/models/transaction.rb:12-20 | on commit, exactly one borrow entry with fee 0 for the given user and book is appended and returned; the book becomes borrowed; no balance and no other book changes |
| Transactions.ProcessReturn | app/models/transaction.rb:22-30 | on commit, exactly one return entry with the fixed fee is appended; exactly the fee is deducted from the requesting user; the book becomes available; a balance below the fee fails the user validation and nothing commits |
| TransactionsController.SufficientBalance | app/controllers/api/v1/transactions_controller.rb:43-45 | for a user who passes its validations, the borrow guard holds exactly when the user would still pass them after the fee is deducted, so the guard predicts the validation the later return runs |
| TransactionsController.BorrowConditionsErrors | app/controllers/api/v1/transactions_controller.rb:43-54 | the checks run in order user, book, availability, balance, and the first failure's message is returned; a balance equal to the fee passes |
| TransactionsController.ReturnConditionsError | app/controllers/api/v1/transactions_controller.rb:56-60 | the only check is that the book is borrowed |
| TransactionsController.BorrowBook | app/controllers/api/v1/transactions_controller.rb:9-23 | a missing user or book, an unavailable book or an insufficient balance is rejected with its message and no change; a commit appends one borrow entry, changes no balance and changes the borrowed book's status and nothing else; the guard's not-found messages never reach the reply |
| TransactionsController.ReturnBook | app/controllers/api/v1/transactions_controller.rb:25-39 | an available book is rejected with no change; a requester whose balance is below the fee passes the guard and is rolled back with no change; a commit appends one return entry with the fee, deducts exactly the fee from the requester and changes nothing else of any user, and makes the book available while leaving every other book field and every other book unchanged |
| Invariants.SaveEntryPreservesValid | app/models/transaction.rb:10 | saving an entry keeps every stored record valid, so every written fee is at least 0 |
| Invariants.CreateUserPreservesValid | app/models/user.rb:12-13 | creating a user keeps every balance non-negative and every account number present and unique |
| Invariants.BorrowBookPreservesValid | app/controllers/api/v1/transactions_controller.rb:13-18 | a guarded borrow keeps every stored record valid |
| Invariants.ReturnBookPreservesValid | app/controllers/api/v1/transactions_controller.rb:29-34 | a guarded return keeps every stored record valid, including account-number uniqueness |
| Invariants.GuardedBorrowCommitsIffGuardPasses | app/controllers/api/v1/transactions_controller.rb:13-18 | in a valid state, a borrow commits exactly when both records exist and the guard reports nothing |
| Invariants.GuardedReturnCommitsIffBalanceCoversFee | app/controllers/api/v1/transactions_controller.rb:29-37 | in a valid state, the return of a borrowed book commits exactly when the requester's balance covers the fee, and otherwise replies with the user validation error and no change |
| Invariants.GuardedActionsKeepBalancesNonNegative | app/controllers/api/v1/transactions_controller.rb:13-34 | from a state with all balances at least 0, guarded borrow and return keep them at least 0 |
| Invariants.BorrowBookPreservesPaired | app/models/transaction.rb:14-18 | a guarded borrow keeps each book's status borrowed exactly when its latest entry is a borrow |
| Invariants.ReturnBookPreservesPaired | app/models/transaction.rb:24-28 | a guarded return keeps each book's status borrowed exactly when its latest entry is a borrow |
| Invariants.ReturnBookClearsBorrowedBy | app/models/book.rb:18 | after a committed return, the book is in no user's `borrowed_by` |
| Invariants.BorrowBookMovesCurrentLoan | app/models/transaction.rb:12-20 | a committed borrow adds the book to the borrower's current loans and removes it from every other user's |
| Invariants.ReturnBookEndsCurrentLoan | app/models/transaction.rb:22-30 | a committed return removes the book from every user's current loans and changes nothing else in them |
| Scenarios.BorrowKeepsBalance | app/models/transaction.rb:12-20 | with balance 100.00, a borrow leaves the balance at 100.00, the book borrowed and listed for the user |
| Scenarios.ReturnChargesFee | app/models/transaction.rb:22-30 | the return then leaves 90.00, the book available and unlisted, 10.00 income for the day and a monthly report of one borrow and 10.00 |
| Scenarios.BorrowUnavailableBook | app/controllers/api/v1/transactions_controller.rb:50 | borrowing a borrowed book replies "Book is not available for borrowing" and changes nothing |
| Scenarios.BorrowWithInsufficientBalance | app/controllers/api/v1/transactions_controller.rb:43-51 | a balance of 5.00 is refused with "Insufficient balance to borrow the book" |
| Scenarios.BorrowWithExactlyTheFee | app/controllers/api/v1/transactions_controller.rb:44 | a balance of exactly the fee is sufficient |
| Scenarios.ReturnAvailableBook | app/controllers/api/v1/transactions_controller.rb:57 | returning an available book replies "Book is not currently borrowed" and changes nothing |
| Scenarios.WeeklyReportIsInvalid | app/models/user.rb:38-39 | the token 'weekly' is an invalid period |
| Scenarios.MonthBoundariesIncluded | app/models/user.rb:45 | entries stamped exactly at the first and the last instant of the month are counted |
| Scenarios.IncomeOfTheDay | app/models/book.rb:22-30 | two returns of 10.00 and 5.00 and a borrow give 15.00, with default or explicit bounds; a book without entries earns 0 |
| Scenarios.TwoLoansOneFee | app/controllers/api/v1/transactions_controller.rb:29-37 | with 10.00 a user can borrow two books; the first return empties the balance and the second is rolled back, leaving that book borrowed |
| Scenarios.ReturnChargesTheRequester | app/controllers/api/v1/transactions_controller.rb:56-59 | a user other than the borrower can return the book and is charged the fee instead |
| Scenarios.BorrowedByListsAnotherUsersLoan | app/models/book.rb:15-20 | after user 1 borrows and returns a book and user 2 borrows it, `borrowed_by` lists it for user 1 too, while the current-loan query lists it for user 2 only |
| Scenarios.AccountNumbersStayUnique | app/models/user.rb:56-61 | a second user whose first token is taken gets the next free token |
| Scenarios.NegativeBalanceRejected | app/models/user.rb:13 | creating a user with a negative balance fails |

## Left out

- HTTP layer: JSON rendering, status codes, routes, and the users and books controllers. This includes `Book.find` in the income endpoint and `users#show`. Their logic is the model functions above.
- Rate limiting: library configuration, not application logic.
- Time: `Time.current`, `Time.zone.parse` and calendar arithmetic such as `beginning_of_month`. The instants are parameters. A date string that `Time.zone.parse` cannot read is not modelled; `Books.Income` takes bounds that are already parsed.
- Randomness: `SecureRandom.hex(5)` is a finite sequence of candidate tokens.
- Users.GenerateAccountNumber: the source retries without limit. The model fails with `GenerationExhausted` once the candidates run out, so it says nothing about a draw beyond the sequence.
- Concurrency: database transactions, locking and conflicting writes. Atomicity is modelled only as all-or-nothing pure transitions.
- Floating point: the `.to_f` conversion in `amount_spent_in`. Amounts stay in integer cents.
- Column range: the 10-digit bound of `decimal(10,2)` is not enforced. A value beyond it is a database error, not a validation.
- Users.ValidUser and Library.Blank: Ruby's `blank?` also treats Unicode spaces as blank. The model treats only ASCII space, tab, line feed, vertical tab, form feed and carriage return as blank.
- Cascade deletes (`dependent: :destroy`), and the creation and deletion of books.
- Titles beyond presence, and Rails' full validation messages. An error names only the record whose validation failed.

## Findings

| source | as written | input that shows it | evidently intended | confidence | as-written member | corrected member |
|---|---|---|---|---|---|---|
| app/models/book.rb:15-20 | `borrowed_by(user)` joins any borrow entry by the user with the book's global status flag | user 1 borrows and returns book 1, then user 2 borrows book 1: book 1 is listed as borrowed by user 1 | only the books whose open loan, the latest entry about the book, is the user's borrow (the repository's own RSpec example calls them "the books that are currently borrowed by the user") | medium; not executed | Scenarios.BorrowedByListsAnotherUsersLoan | Books.CurrentlyBorrowedBy |
