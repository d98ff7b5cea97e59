# BookHub loan service, modelled in Dafny

BookHub's loan service lends books to users. Creating a loan checks four things in a
fixed order: the user exists, the user holds fewer than five active loans, the book
exists, and the catalog service agrees to take one copy out of stock. Only then is a
`Loan` stored. It is due after the requested number of days, capped at 21. Its status
is `Active`, its penalty is zero, and it keeps the book's title and the user's e-mail.
Returning a loan stamps the return date and sets the status to `Returned`. A loan
returned after its due date is charged 0.50 per whole day late. The loan is then
stored back and one copy of the book goes back to the catalog.

Files:

- `wrappers.dfy` (module `Wrappers`): `Option` for the source's nullable results and
  `Result` for its exceptions.
- `dtos.dfy` (module `Dtos`): `LoanDto`, `CreateLoanDto` and `LoanStatus`.
- `loan.dfy` (module `Loans`): the loan entity, `TimeSpan.Days`, the penalty rule, and
  the count of a user's active loans.
- `ports.dfy` (module `Ports`): the user-service client, the catalog-service client and
  the loan repository. Each is a class holding the state the service sees.
- `loan_service.dfy` (module `LoanServices`): the class `LoanService` with the create
  and return workflows and the read queries. It also holds the pure functions that
  specify them (`DueDateFor`, `NewLoan`, `MarkReturned`, `MapToDto`) and their lemmas.

Modelling choices:

- Time is a whole number of seconds (`DateTime = int`), and each operation takes one
  `now`. The source reads the clock twice when it builds a loan; here both readings are
  the same instant.
- `TimeSpan.Days` truncates toward zero (`WholeDays`).
- Money is counted in cents, so `decimal` stays exact and 0.50 per day is 50 per day.
- A new loan's id is a parameter `newId`, required to be absent from the repository.
  It stands for `Guid.NewGuid()`.
- The penalty computation at LoanService.cs:99-104 sits as a method declaration inside
  `CreateLoanAsync`, which does not compile. It is the entity's `CalculatePenalty`,
  called at line 124. It is modelled as `Loans.CalculatePenalty(dueDate, returnDate)`.
- The repository filter behind `GetActiveLoansByUserIdAsync` is not part of this model.
  The model assumes a loan counts while its status is not `Returned`, so `Active` and
  `Overdue` loans both count (`Loans.IsActive`).
- The catalog's decrement is not part of this model either. The model assumes it
  succeeds exactly when the book is known and has a copy left (`CanDecrement`). The
  service's contracts split their cases on that predicate and also state the counter
  change this assumption implies: one copy fewer after a successful create, and
  `Incremented` after a return. The catalog client keeps a ghost log
  `calls` of the requests it receives, so the order of requests can be stated. The
  increment is assumed to add one copy of a known book and to ignore an unknown one.
- The loan entity is a value. The field writes at lines 119-124 become successive
  record updates on a local copy, which `Update` writes back.
- The domain `LoanStatus` enum is not part of this model. It is assumed to declare
  `Active`, `Returned`, `Overdue` in the same order as the shared one. Under that
  assumption the cast at line 146 keeps each status.
- The code has no lower bound on the duration, so a request of zero or fewer days
  gives a loan that is already due. It does not reject a second return of the same
  loan. It does not give the copy back to the catalog when storing the new loan fails.
  The interface copy in ILoanService.cs declares `ReturnLoanAsync` as returning `bool`.
  The model follows the declaration in LoanService.cs, which returns the loan or null.

## Model

| member | source | states |
|---|---|---|
| `Loans.AddDays` | BookHub/src/Services/BookHub.LoanService/Application/Services/LoanService.cs:94 | `DateTime.AddDays` with whole days: the span added is exactly `days` whole days by `TimeSpan.Days`, and it moves the date forward exactly when `days` is positive |
| `Loans.ActiveLoansOf` | BookHub/src/Services/BookHub.LoanService/Application/Services/LoanService.cs:68 | the assumed filter of `GetActiveLoansByUserIdAsync`: exactly the stored loans of that user whose status is not `Returned` (`IsActive`), unchanged |
| `Loans.WholeDays` | BookHub/src/Services/BookHub.LoanService/Application/Services/LoanService.cs:102 | `TimeSpan.Days`: for a non-negative span, `days` whole days fit in it and `days + 1` do not; a negative span is truncated toward zero |
| `Loans.CalculatePenalty` | BookHub/src/Services/BookHub.LoanService/Application/Services/LoanService.cs:99-104 | the penalty is never negative, is a multiple of 0.50, and is non-zero only when the loan came back at least a full day after its due date |
| `Loans.PenaltyCountsWholeDaysLate` | BookHub/src/Services/BookHub.LoanService/Application/Services/LoanService.cs:101-103 | the penalty is 0.50 × k, where k is the number of whole days late (k days ≤ lateness < k+1 days), and 0 when returned on or before the due date |
| `Loans.PenaltyFreeWithinADay` | BookHub/src/Services/BookHub.LoanService/Application/Services/LoanService.cs:101-103 | returning less than a full day late costs nothing |
| `Loans.PenaltyMonotonic` | BookHub/src/Services/BookHub.LoanService/Application/Services/LoanService.cs:101-103 | a later return never costs less |
| `Loans.PenaltyExamples` | BookHub/src/Services/BookHub.LoanService/Application/Services/LoanService.cs:99-104 | no return date, on time, a day early or an hour late → 0; two days late → 1.00; three days late → 1.50 |
| `Loans.ActiveLoanCountAfterAdd` | BookHub/src/Services/BookHub.LoanService/Application/Services/LoanService.cs:68-69 | storing an active loan under a fresh id raises its user's active-loan count by exactly one and leaves other users' counts unchanged |
| `Ports.Incremented` | BookHub/src/Services/BookHub.LoanService/Application/Services/LoanService.cs:130 | giving back a copy adds one to that book's counter only; the set of known books does not change |
| `Ports.UserServiceClient.GetUser` | BookHub/src/Services/BookHub.LoanService/Application/Services/LoanService.cs:63-64 | returns the user's snapshot, or null (None) exactly when the user is unknown |
| `Ports.CatalogServiceClient.GetBook` | BookHub/src/Services/BookHub.LoanService/Application/Services/LoanService.cs:73-74 | returns the book's snapshot, or null (None) exactly when the book is unknown; the lookup is logged |
| `Ports.CatalogServiceClient.DecrementAvailability` | BookHub/src/Services/BookHub.LoanService/Application/Services/LoanService.cs:78-79 | answers true exactly when a copy could be taken, and then takes one; on false no counter changes |
| `Ports.CatalogServiceClient.IncrementAvailability` | BookHub/src/Services/BookHub.LoanService/Application/Services/LoanService.cs:130 | puts one copy of the book back and logs the request |
| `Ports.LoanRepository.GetAll` | BookHub/src/Services/BookHub.LoanService/Application/Services/LoanService.cs:38 | returns every stored loan |
| `Ports.LoanRepository.GetById` | BookHub/src/Services/BookHub.LoanService/Application/Services/LoanService.cs:115-116 | returns the stored loan, or null (None) exactly when no loan has that id |
| `Ports.LoanRepository.GetByUserId` | BookHub/src/Services/BookHub.LoanService/Application/Services/LoanService.cs:50 | returns exactly the stored loans of that user |
| `Ports.LoanRepository.GetActiveLoansByUserId` | BookHub/src/Services/BookHub.LoanService/Application/Services/LoanService.cs:68 | returns exactly that user's loans that are not yet returned |
| `Ports.LoanRepository.Add` | BookHub/src/Services/BookHub.LoanService/Application/Services/LoanService.cs:107 | stores the new loan under its id and changes nothing else; every loan stays stored under its own id |
| `Ports.LoanRepository.Update` | BookHub/src/Services/BookHub.LoanService/Application/Services/LoanService.cs:127 | replaces the stored loan with that id and changes nothing else; every loan stays stored under its own id |
| `LoanServices.DueDateFor` | BookHub/src/Services/BookHub.LoanService/Application/Services/LoanService.cs:83 | the due date `Math.Min(DurationDays, 21)` days after the loan date: at most 21 whole days and at most the request; no later than the loan date for a request of zero or fewer days |
| `LoanServices.NewLoan` | BookHub/src/Services/BookHub.LoanService/Application/Services/LoanService.cs:86-97 | the loan a successful create stores: the fresh id, the current instant as loan date, status `Active`, no return date, no penalty; well-formed, penalty consistent, due within 21 days |
| `LoanServices.MarkReturned` | BookHub/src/Services/BookHub.LoanService/Application/Services/LoanService.cs:119-125 | the loan after a return: return date `now`, status `Returned`, no longer active; id, book and due date kept; the penalty changes only when the due date is before `now`; well-formedness kept |
| `LoanServices.MapToDto` | BookHub/src/Services/BookHub.LoanService/Application/Services/LoanService.cs:137-148 | the read model carries the loan's id, user and book; it keeps the entity's status/return-date agreement, non-negative penalty and consistent penalty |
| `LoanServices.DueDateIsCappedRequest` | BookHub/src/Services/BookHub.LoanService/Application/Services/LoanService.cs:83 | the loan lasts a whole number of days, at most 21 and at most the request, and equal to one of them; a request of 30 days gives 21; a request of zero or fewer days gives a due date no later than the loan date |
| `LoanServices.NewLoanIsFresh` | BookHub/src/Services/BookHub.LoanService/Application/Services/LoanService.cs:86-97 | a new loan has the given id, user and book, the book's title and the user's e-mail, the current instant as loan date, status `Active`, no return date and no penalty; it is well-formed and its penalty is consistent |
| `LoanServices.MarkReturnedEffect` | BookHub/src/Services/BookHub.LoanService/Application/Services/LoanService.cs:119-125 | a return stamps the return date and sets `Returned`; the penalty changes only when the due date is before the return date, and then it is the computed penalty; id, user, book, title, e-mail, loan date and due date do not change; well-formedness is kept |
| `LoanServices.MarkReturnedKeepsPenaltyConsistent` | BookHub/src/Services/BookHub.LoanService/Application/Services/LoanService.cs:119-125 | if the clock does not go back, the stored penalty after a return is what the stored dates call for, even for a loan returned before |
| `LoanServices.SecondReturnRestamps` | BookHub/src/Services/BookHub.LoanService/Application/Services/LoanService.cs:118-125 | nothing stops a second return: it re-stamps the return date and recharges the penalty from the new date |
| `LoanServices.MapToDtoInjective` | BookHub/src/Services/BookHub.LoanService/Application/Services/LoanService.cs:137-148 | the read model copies every field: two loans have the same read model exactly when they are equal |
| `LoanServices.LoanDtosOnePerLoan` | BookHub/src/Services/BookHub.LoanService/Application/Services/LoanService.cs:39 | loans stored under their own ids give exactly as many read models as there are loans |
| `LoanServices.LoanService.GetAllLoans` | BookHub/src/Services/BookHub.LoanService/Application/Services/LoanService.cs:36-40 | the result holds the read model of every stored loan, nothing else, and one per loan |
| `LoanServices.LoanService.GetLoanById` | BookHub/src/Services/BookHub.LoanService/Application/Services/LoanService.cs:42-46 | null (None) exactly for an unknown id; otherwise the read model of the loan with that id |
| `LoanServices.LoanService.GetLoansByUserId` | BookHub/src/Services/BookHub.LoanService/Application/Services/LoanService.cs:48-52 | the result holds the read model of every loan of that user and nothing else |
| `LoanServices.LoanService.CreateLoan` | BookHub/src/Services/BookHub.LoanService/Application/Services/LoanService.cs:60-111 | unknown user → `UserNotFound`; five or more active loans → `TooManyActiveLoans`; in both cases no catalog request is made and nothing changes. Unknown book → `BookNotFound` after only a lookup. Refused decrement → `BookNotAvailable` with no loan stored. Otherwise exactly one copy is taken, the loan `NewLoan(...)` is stored once under the fresh id, and its read model is returned. After success the user holds at most five active loans; well-formedness of the store is kept |
| `LoanServices.LoanService.ReturnLoan` | BookHub/src/Services/BookHub.LoanService/Application/Services/LoanService.cs:113-135 | unknown id → null (None), no store update, no catalog request; otherwise the loan becomes `MarkReturned(loan, now)` in the store, exactly one increment is sent for that loan's book, and the read model of the returned loan is returned; well-formedness of the store is kept |
| `LoanServices.ReturnTwice` | BookHub/src/Services/BookHub.LoanService/Application/Services/LoanService.cs:113-135 | returning the same loan twice succeeds both times and puts two copies of the book back |

## Left out

- `GetOverdueLoansAsync` (LoanService.cs:54-58): the repository's overdue filter is not part of this model.
- Logging (LoanService.cs:108, 132), `async`/`CancellationToken` plumbing and the constructor's dependency injection.
- The text of the exception messages: each error case carries the user or book id it names.
- Failures and timeouts of the remote clients and of the store, which would surface as exceptions. The model assumes each call completes.
- `DateTime` range and tick precision: times are unbounded whole seconds, so `AddDays` never throws for a date out of range.
- The order of the sequences the read queries return, which depends on the repository implementation: results are sets of read models. `LoanDtosOnePerLoan` shows that no two loans share a read model, so no loan is lost.
- Concurrency between callers, including the race between the loan count and the insert. Every operation runs alone.
- The API gateway and the duplicate interface in ILoanService.cs, which hold no logic.
