# Smart library: loans, availability and their consistency

This project models the core of a library system that exists twice: as a monolith (`src/`) and as
four services (`user-service`, `book-service`, `loan-service`, `stat-service`) talking over HTTP.
It covers:

- the loan lifecycle: create, return, extend, due-date update and the overdue listing;
- the book availability counter, and the invariant linking it to the loans that are out;
- how the service proxies turn HTTP replies, timeouts and an open circuit breaker into values,
  `null` or errors;
- the order of the cross-service steps of creating and returning a loan, with the gaps they leave;
- the statistics aggregations (most borrowed books, most active users, the system overview);
- the user rules: unique emails and the role change rules.

Records are Dafny datatypes. Each collection (`BookTable`, `UserTable`, `LoanTable`) is a class
whose `rows` map document ids to documents. The handlers that write are methods over those tables
and state the whole new table. Everything that only computes a reply is a function. The invariant
behind most proofs is `Consistency.Conserved`: for every book, its available copies plus its
ACTIVE or OVERDUE loans equal its copies.

What the code does where its description differs (the code is followed):

- The loan service's `createLoan` compares `book.availableCopies`, a member the book service never
  sends, so it never refuses a book with no copy free. Such a request goes on to the decrement,
  which the book service refuses, and the caller gets the stat proxy's 500 "Book service
  unavailable: Cannot update book availability at this time" (`LoanController.CreateLoan`; the
  corrected handler is `LoanController.CreateLoanCorrected`, see Findings).
- The loan service's `returnBook` does not refuse a loan that is already RETURNED. The monolith
  does (see Findings).
- `updateLoan` marks any loan OVERDUE when its new due date is past, a RETURNED one included. That
  brings a returned loan back into the outstanding count (`Consistency.ConservedAfterUpdateDue`).
- A book update may lower `copies` below `availableCopies`. Only the reverse is refused.
- Both `createLoan` handlers decrement the book first and save the loan second, with no
  compensation. A failed save leaves the counter one lower (`LoanController.CreateLoan`,
  `MonolithLoanController.CreateLoan`).
- A remote write that completes after the caller gave up still lands. The proxies are therefore
  not at-most-once from the caller's point of view.
- In the monolith, a loan whose book was deleted makes `getUserLoans` fail with 500 (reading `_id`
  of `null`) and makes `getOverdueLoans` fail with 500. Its "Associated book not found" 404 cannot
  be reached.
- The book service's handlers never call `validationResult`, so `validation.js` refuses nothing.
  Its `trim()` sanitizers still rewrite `title`, `author` and `isbn` before the handler runs, so
  the model's strings are the trimmed values. Non-negative counts are a hypothesis
  (`BookRules.CountsValidated`), not a guarantee.
- The book service registers `GET /books/stats` after `GET /:id` (book-service/routes/bookRoutes.js:25,
  :31), so the stat proxy's stats read reaches `getBookById` with the id "stats", whose lookup fails.
  `getBookStats` takes no request or response (bookController.js:424), so it would send nothing
  even if it were reached. The stat proxy therefore never receives the sums
  `BookController.GetBookStats` computes; `StatBookApi.GetBookStats` models the proxy side alone.

Inputs the code gets from the outside world are parameters:

- the current time and local midnight;
- how long each remote call takes, and whether it reaches the server;
- whether the breaker is open;
- the outcome of each database step (done, late, failed);
- the ids new documents get;
- the regular-expression match of the search.

## Model

| member | source | states |
|---|---|---|
| Records.NewLoan | loan-service/controllers/loanController.js:31-35 | a new loan is ACTIVE, has no extensions and no return date, and is issued now; it is well formed |
| Transport.WithClientTimeout | loan-service/services/UserApi.js:10-16 | a client timeout replaces a reply that is at least as slow by axios's timeout error and leaves faster ones alone |
| Transport.Lookup | loan-service/services/UserApi.js:19-29 | a lookup is `null` exactly for a 404, the data exactly for a response, and otherwise a rejection with the caller's message prefix |
| Transport.Mutation | loan-service/services/BookApi.js:30-39 | a mutation yields the data exactly for a response and rejects with the caller's message prefix for every failure, a 404 included |
| LoanUserApi.GetUserById | loan-service/services/UserApi.js:19-29 | the user lookup is `null` only for a 404 within 5000 ms, the user only for a response within 5000 ms, and an error otherwise |
| LoanUserApi.SlowUserLookupRejects | loan-service/services/UserApi.js:15 | a user service slower than the client timeout always gives an error and never `null` |
| LoanBookApi.GetBookById | loan-service/services/BookApi.js:18-28 | `null` exactly for a 404, the data for a response, otherwise "Error fetching book: ..." |
| LoanBookApi.DecreaseBookAvailability | loan-service/services/BookApi.js:30-39 | succeeds exactly on a response; every failure rejects with "Error decreasing book availability: ..." |
| LoanBookApi.IncreaseBookAvailability | loan-service/services/BookApi.js:41-50 | succeeds exactly on a response; every failure rejects with "Error increasing book availability: ..." |
| LoanBookApi.ControllerImportUnresolved | loan-service/controllers/loanController.js:4-9 | the controller imports `updateBookAvailability`, which the module does not export, and that is the only unresolved name |
| LoanBookApi.CorrectedImportLinks | loan-service/services/BookApi.js:52-56 | adding the one export makes every import of the controller resolve |
| CircuitBreaker.DefaultOptions | loan-service/utilities/circuitBreaker.js:12-19 | every option has a default: timeout 5000, threshold 50 %, reset 10000, volume 5, rolling window 10000 over 10 buckets |
| CircuitBreaker.MergeOptions | loan-service/utilities/circuitBreaker.js:22 | each supplied option wins and every other option keeps its default |
| CircuitBreaker.MergeNothingIsDefault | loan-service/utilities/circuitBreaker.js:10 | the empty default `options = {}` yields exactly the defaults |
| CircuitBreaker.MergeIsIdempotent | loan-service/utilities/circuitBreaker.js:22 | merging already merged options changes nothing |
| CircuitBreaker.DefaultFallback | loan-service/utilities/circuitBreaker.js:57-64 | the default fallback returns its fallback value whatever the error |
| CircuitBreaker.NullFallback | loan-service/utilities/circuitBreaker.js:57 | with the default `fallbackValue = null`, every error becomes `null` |
| CircuitBreaker.Judge | loan-service/utilities/circuitBreaker.js:25 | a call passes the breaker exactly when the breaker is closed, the call settles within the timeout and it fulfils, and then its result is the call's own |
| CircuitBreaker.Fire | stat-service/services/BookApi.js:157-173 | a passed call's result is returned; a tolerant fallback never rejects and replaces a tripped call by its value; an escalating fallback rejects with its one message exactly when the call did not pass |
| StatBookApi.ReadOptions | stat-service/services/BookApi.js:31-35 | the read breakers time out at 3000 ms and keep every other default |
| StatBookApi.WriteOptions | stat-service/services/BookApi.js:88-92 | the write breakers time out at 6000 ms and keep every other default |
| StatBookApi.Settling | stat-service/services/BookApi.js:14-20 | the breaker sees a call settle at the server's time, capped at axios's 5000 ms |
| StatBookApi.GetBookStatsFn | stat-service/services/BookApi.js:22-29 | the stats data exactly for a response, otherwise "Error fetching book stats: ..." |
| StatBookApi.GetBookStats | stat-service/services/BookApi.js:31-43 | never rejects; the stats exactly when the breaker is closed, the reply comes within 3000 ms and it is a response, `null` otherwise |
| StatBookApi.GetBookByIdFn | stat-service/services/BookApi.js:46-56 | `null` exactly for a 404, the data for a response, otherwise "Error fetching book: ..." |
| StatBookApi.GetBookById | stat-service/services/BookApi.js:59-73 | never rejects; the book exactly when the breaker is closed, the reply comes within 3000 ms and it is a response, `null` otherwise, errors included |
| StatBookApi.ReadClientTimeoutNeverDecides | stat-service/services/BookApi.js:62 | on reads the breaker's 3000 ms comes before axios's 5000 ms, so the client timeout never changes the outcome |
| StatBookApi.SlowReadIsNull | stat-service/services/BookApi.js:62 | a read slower than 3000 ms is `null` whatever the server would have answered |
| StatBookApi.GuardedWrite | stat-service/services/BookApi.js:94-102 | a guarded write fulfils with the data exactly when the breaker is closed, the reply comes within 5000 ms and it is a response; every other outcome is the one fixed "unavailable" error |
| StatBookApi.WriteBreakerTimeoutNeverDecides | stat-service/services/BookApi.js:91 | axios's 5000 ms fires before the breaker's 6000 ms: a write slower than 5000 ms is rejected by the client and still trips the breaker |
| StatBookApi.DecreaseBookAvailability | stat-service/services/BookApi.js:76-107 | success exactly for a timely response with the breaker closed, and then the response data; every failure is "Book service unavailable: Cannot decrease book availability at this time" |
| StatBookApi.IncreaseBookAvailability | stat-service/services/BookApi.js:110-141 | success exactly for a timely response with the breaker closed, and then the response data; every failure is "... Cannot increase book availability at this time" |
| StatBookApi.UpdateAvailabilityRequest | stat-service/services/BookApi.js:144-150 | the request goes to `/books/<id>/availability` and carries the given count and operation |
| StatBookApi.UpdateBookAvailability | stat-service/services/BookApi.js:157-182 | success exactly for a timely response with the breaker closed, and then the response data; every failure is "... Cannot update book availability at this time" |
| StatBookApi.MatchAvailabilityRoute | book-service/routes/bookRoutes.js:36-40 | a matched path is `/books/<id>/availability` with a non-empty id free of `/` |
| StatBookApi.RequestMatchesRoute | book-service/routes/bookRoutes.js:36-40 | the path the proxy sends reaches the availability route with the same book id |
| StatBookApi.CheckBookServiceHealth | stat-service/services/BookApi.js:185-195 | the health check never rejects; it is "ok" exactly when the request succeeds in time, otherwise "error" with the failure's message |
| BookRules.NewBook | book-service/controllers/bookController.js:15-21 | a new book has all its copies available and is in stock when its count is non-negative |
| BookRules.UpdateRefusal | book-service/controllers/bookController.js:127-145 | an update is refused for a changed ISBN that another book has, or for more available copies than the resulting copies, and otherwise the stored counts keep available <= copies when available is sent |
| BookRules.AcceptedUpdateStock | book-service/controllers/bookController.js:134-145 | an accepted update of an in-stock book with validated counts leaves it in stock exactly unless it lowers `copies` below the current available copies without sending `available_copies`; in that case the book ends up with more available than copies |
| BookRules.EmptyPatchChangesNothing | book-service/controllers/bookController.js:134-138 | an update sending no field is accepted and leaves the book unchanged |
| BookRules.EmptyStringsKeepFields | book-service/controllers/bookController.js:127-136 | empty strings never overwrite a field, and an unchanged or empty ISBN is never refused |
| BookController.FormatBook | book-service/controllers/bookController.js:100-109 | the JSON of a book sends its counts as `copies` and `available_copies`, never as `availableCopies` |
| BookController.CreateBook | book-service/controllers/bookController.js:4-40 | a used ISBN is refused with 400 and nothing is stored; otherwise the new book is stored with all its copies available and stock stays valid |
| BookController.GetBookById | book-service/controllers/bookController.js:92-115 | 200 with the formatted book exactly when it exists, otherwise 404 "Book not found" |
| BookController.UpdateBook | book-service/controllers/bookController.js:118-165 | 404 for an unknown id; a refused update stores nothing and answers 400 with its message; an accepted one stores the patched book and answers it formatted |
| BookController.AssignFields | book-service/controllers/bookController.js:134-137 | the field assignments give the patched book: each truthy string and each supplied count replaces its field; the available count is left for the check that follows |
| BookController.DeleteBook | book-service/controllers/bookController.js:168-186 | 404 for an unknown id; a book with a copy out stays and gets 400; otherwise it is removed with status 201 |
| BookController.DecreaseBookAvailability | book-service/controllers/bookController.js:189-208 | an unknown id or no available copy rejects and stores nothing; otherwise one copy is taken; stock stays valid |
| BookController.IncreaseBookAvailability | book-service/controllers/bookController.js:211-227 | an unknown id rejects; otherwise one copy is added, even above the book's copies |
| BookController.EndpointReply | book-service/controllers/bookController.js:230-270 | the timer wins at 3000 ms with 503; a fulfilled operation is 200 with the formatted book; a rejected one is 400 with its message, unless the message is exactly the timer's |
| BookController.OperationErrorsAreClientErrors | book-service/controllers/bookController.js:261-268 | the operations' own messages are answered 400 and never mistaken for the timer |
| BookController.DecreaseAvailabilityEndpoint | book-service/controllers/bookController.js:230-270 | one copy is taken exactly when the book exists with a copy available, whether or not the reply beats the timer |
| BookController.IncreaseAvailabilityEndpoint | book-service/controllers/bookController.js:272-312 | one copy is added exactly when the book exists, whether or not the reply beats the timer |
| BookController.ParseOperation | book-service/controllers/bookController.js:373-391 | only "increment" and "decrement" are operations |
| BookController.PlanAvailability | book-service/controllers/bookController.js:363-391 | the update succeeds exactly for an existing book with room to increment or a copy to decrement, moves the count by exactly one and keeps an in-stock book in stock; failures are 404 for a missing book and 400 otherwise |
| BookController.CaughtError | book-service/controllers/bookController.js:411-418 | a caught message containing "timed out" is 503, any other 500 with the message |
| BookController.TimersAreUnavailable | book-service/controllers/bookController.js:411-418 | both timers' messages are answered 503 |
| BookController.UpdateBookAvailability | book-service/controllers/bookController.js:349-420 | a late find is 503 and stores nothing; a refused plan stores nothing; a save that completes, even late, stores the planned book; the reply is 200 only for a timely save; stock stays valid |
| BookController.GetBookStats | book-service/controllers/bookController.js:424-439 | the totals are the sums of copies and of available copies, zero for no books |
| BookController.StatsInStock | book-service/controllers/bookController.js:424-439 | when every book is in stock, 0 <= available total <= copies total |
| BookController.Paginate | book-service/controllers/bookController.js:57-66 | a negative skip is an error; a page never holds more than the page size and is a slice of the listing |
| BookController.PagesTile | book-service/controllers/bookController.js:57-66 | the first n pages of a positive page size, joined, are exactly the first n * size documents in order |
| BookController.GetBooks | book-service/controllers/bookController.js:43-89 | the total is every document without a search and the matching ones with it; the page is the skip/limit slice of that listing, each book formatted with `copies` and `available_copies`, and echoes page and page size |
| LoanMachine.Extend | loan-service/controllers/loanController.js:288-308 | an extension is refused exactly for a RETURNED loan or one with two extensions; otherwise the due date moves by the days, the count goes up by one, the loan is ACTIVE and nothing else changes |
| LoanMachine.ExtendAllStaysWellFormed | loan-service/controllers/loanController.js:294-305 | however many extensions are requested, a well-formed loan stays well formed, so at most two succeed |
| LoanMachine.ThirdExtensionRefused | loan-service/controllers/loanController.js:294-298 | a fresh loan can be extended twice, and the third request is refused at count 2 |
| LoanMachine.MarkReturned | loan-service/controllers/loanController.js:132-134 | the loan becomes RETURNED with the return date now, nothing else changes, and it stays well formed |
| LoanMachine.Return | src/controllers/loanController.js:82-103 | the guarded return succeeds exactly for a loan not yet RETURNED |
| LoanMachine.ReturnIsOnce | src/controllers/loanController.js:82-103 | a second return of the same loan is refused |
| LoanMachine.UpdateDue | loan-service/controllers/loanController.js:89-97 | the due date is set, the status becomes OVERDUE exactly when the date is past, and nothing else changes |
| LoanMachine.UpdateDueWellFormed | loan-service/controllers/loanController.js:89-97 | a due-date update keeps a loan well formed exactly unless it turns a RETURNED loan OVERDUE |
| LoanMachine.OverdueLoans | loan-service/controllers/loanController.js:203-207 | the overdue query returns exactly the ACTIVE or OVERDUE loans due before now, each as often as stored, in ascending due-date order |
| LoanMachine.CeilDiv | loan-service/controllers/loanController.js:212-214 | the least q with q * d >= n |
| LoanMachine.DaysOverdue | loan-service/controllers/loanController.js:212-214 | the whole days started since the due date; at least one for a loan past due |
| LoanMachine.OverdueReport | loan-service/controllers/loanController.js:201-271 | one entry per overdue loan in due-date order, each at least one day overdue |
| LoanMachine.ThreeDaysOverdue | loan-service/controllers/loanController.js:212-214 | a loan due three days ago and still ACTIVE is listed alone as three days overdue |
| LoanMachine.UserLoans | src/controllers/loanController.js:149-151 | exactly the user's loans, as often as stored, newest issue date first |
| Consistency.ConservedCapsAvailability | book-service/controllers/bookController.js:175-179 | under the invariant no book has more available copies than copies, and all its copies are in exactly when none of its loans is out |
| Consistency.ConservedAfterWrite | src/controllers/loanController.js:50-52 | writing one loan and moving its book's counter by the change in outstanding loans keeps the invariant |
| Consistency.ConservedAfterLoan | src/controllers/loanController.js:50-52 | a new ACTIVE loan with its book's counter lowered by one keeps the invariant |
| Consistency.ConservedAfterReturn | src/controllers/loanController.js:82-110 | returning a loan that is out, with its book's counter raised by one, keeps the invariant |
| Consistency.DoubleReturnBreaksInvariant | loan-service/controllers/loanController.js:132-137 | returning an already RETURNED loan again and raising its book's counter breaks the invariant |
| Consistency.ConservedAfterInPlaceUpdate | src/controllers/loanController.js:262-268 | a loan write that keeps its book and whether it is returned keeps the invariant |
| Consistency.ConservedAfterExtend | loan-service/controllers/loanController.js:300-308 | an extension keeps the invariant |
| Consistency.ConservedAfterUpdateDue | loan-service/controllers/loanController.js:89-97 | a due-date update keeps the invariant exactly unless it revives a RETURNED loan of a listed book |
| Consistency.ConservedAfterNewBook | book-service/controllers/bookController.js:15-21 | a new book without loans keeps the invariant exactly when all its copies are available |
| Consistency.LoneAvailabilityChangeBreaks | loan-service/controllers/loanController.js:38-39 | a counter change without the matching loan write breaks the invariant |
| Consistency.LoneLoanChangeBreaks | loan-service/controllers/loanController.js:132-137 | a loan moving in or out without the matching counter change breaks the invariant |
| LoanStats.CountActiveKey | loan-service/controllers/loanController.js:382-386 | a key's ACTIVE count never exceeds its total |
| LoanStats.Bump | loan-service/controllers/loanController.js:378-388 | adding one loan changes only its key's group, by one |
| LoanStats.Tallies | loan-service/controllers/loanController.js:378-388 | the `$group` stage yields one row per occurring key with that key's total and ACTIVE counts, and no row for any other key |
| LoanStats.TallyRow | loan-service/controllers/loanController.js:378-388 | every group row counts exactly its key's loans, at least one |
| LoanStats.Top | loan-service/controllers/loanController.js:389-394 | the sort and limit keep min(n, groups) rows in descending count, and every dropped group counts no more than every kept one |
| LoanStats.TopTallies | loan-service/controllers/loanController.js:377-395 | min(n, groups) rows of the grouping, each taken at most once and with distinct keys, in descending count, each with its key's counts, and every group left out counting no more than every kept one |
| LoanStats.TopTalliesLeaveOutNoLarger | loan-service/controllers/loanController.js:389-394 | a key with loans that the limit leaves out counts no more than any key it keeps |
| LoanStats.CountStatus | loan-service/controllers/loanController.js:426-432 | `countDocuments({ status })`: at most all loans, zero exactly when no loan has the status, all exactly when every loan has it |
| LoanStats.CountIssuedSince | loan-service/controllers/loanController.js:435-446 | `countDocuments({ issueDate: { $gte } })`: at most all loans, zero exactly when none was issued at or after the instant, all exactly when every one was |
| LoanStats.CountReturnedSince | loan-service/controllers/loanController.js:448-459 | `countDocuments({ returnDate: { $gte } })`: at most all loans, zero exactly when none has a return date at or after the instant (a loan without one never matches), all exactly when every one has |
| LoanStats.StatusCountsPartition | loan-service/controllers/loanController.js:427-433 | the ACTIVE, OVERDUE and RETURNED counts add up to all loans |
| LoanStats.ReturnsTodayAreReturned | loan-service/controllers/loanController.js:449-459 | among well-formed loans, those returned since an instant are no more than the RETURNED ones |
| LoanStats.BookLabel | loan-service/controllers/loanController.js:348-362 | a row shows the looked-up title and author, or "Unknown" when the lookup failed or found nothing |
| LoanStats.UserName | loan-service/controllers/loanController.js:400-415 | the looked-up user's name, or "Unknown" on a failed or empty lookup |
| LoanStats.PopularBooksData | loan-service/controllers/loanController.js:326-371 | row i is the i-th of the ten largest book groups (`TopTallies`), so the rows are the most borrowed books, one each, with its loan count, descending, each labelled from its lookup |
| LoanStats.ActiveUsersData | loan-service/controllers/loanController.js:374-424 | row i is the i-th of the ten largest user groups (`TopTallies`), so the rows are the most active users, one each, with total and ACTIVE counts, current <= total, descending, each named from its lookup |
| LoanController.RemoteUpdateAvailability | loan-service/controllers/loanController.js:38 | the book table changes exactly when the write lands; the caller sees success exactly when it landed, saved in time and came back within 5000 ms; any failure is the one unavailable error |
| LoanController.AvailabilityCheckNeverFires | loan-service/controllers/loanController.js:25-29 | the check as written reads a member the book service never sends, so it never refuses |
| LoanController.AvailabilityCheckCorrected | book-service/controllers/bookController.js:100-109 | the check on `available_copies` refuses exactly the books with no copy available |
| LoanController.BookLookup | loan-service/controllers/loanController.js:21-24 | a lost request rejects; otherwise the formatted book when it exists and `null` when not |
| LoanController.CreateRefusal | loan-service/controllers/loanController.js:16-29 | loan creation is refused in the handler's order: a failed user lookup (500), no user (404), a failed book lookup (500), no book (404), then 400 when the given availability check (as written, or corrected) refuses the book; the loan goes ahead exactly when none applies |
| LoanController.StockRefusalByCheck | loan-service/controllers/loanController.js:25-29 | on the book service's JSON the refusals as written never include "Book is not available for loan", while with the corrected check that refusal comes exactly when no copy is free |
| LoanController.CreateLoan | loan-service/controllers/loanController.js:12-45 | with the check as written: a refusal writes nothing; a found user and a book with no copy free get 500 "Book service unavailable: Cannot update book availability at this time" with nothing written; a failed decrement stores no loan; on success the loan is stored and its book loses one copy, keeping the invariant; a decrement that lands without the loan breaks it |
| LoanController.CreateLoanCorrected | loan-service/controllers/loanController.js:12-45 | with the check on `available_copies`: a book with no copy free is refused 400 before any write; otherwise the same steps, so success stores the loan and takes one of the copies that were free, keeping the invariant and the stock bounds |
| LoanController.ReturnBook | loan-service/controllers/loanController.js:119-147 | 404 for an unknown loan; any loan, RETURNED included, is marked returned and its book credited when the increment lands; a failed increment restores the loan; a landed increment without a committed loan breaks the invariant |
| LoanController.ReturnBookGuarded | src/controllers/loanController.js:82-103 | with the guard a RETURNED loan is refused before any write, and a successful return keeps the invariant |
| LoanController.UpdateLoan | loan-service/controllers/loanController.js:84-116 | 404 for an unknown loan; without a due date nothing is stored; with one the loan becomes its due-date update |
| LoanController.ExtendLoan | loan-service/controllers/loanController.js:274-323 | missing or non-positive days are 400 before the lookup; unknown 404; a refused extension 400 with its message and no write; otherwise the extended loan is stored; loans stay well formed |
| LoanController.UserParty | loan-service/controllers/loanController.js:217-230 | a found user shows their name and email, anything else the placeholders |
| LoanController.Row | loan-service/controllers/loanController.js:248-263 | an overdue row carries its entry, its user party and its book label |
| LoanController.OverdueListing | loan-service/controllers/loanController.js:201-271 | one row per overdue loan in due-date order, none dropped for a failed lookup |
| MonolithLoanController.CreateRefusal | src/controllers/loanController.js:17-39 | loan creation is refused in order for no user (404), no book (404), no copy available (400), an overdue loan of the user (400), and goes ahead exactly when none applies |
| MonolithLoanController.CreateLoan | src/controllers/loanController.js:8-58 | a refusal or a failed book save writes nothing; a failed loan save leaves the book decremented and breaks the invariant; success stores the loan with the book one copy lower, keeping the invariant and stock |
| MonolithLoanController.ReturnBook | src/controllers/loanController.js:61-144 | 404 for an unknown loan, 400 for a returned one; a missing book is 500 and restores the loan; success marks it returned, credits the book and keeps the invariant |
| MonolithLoanController.ExtendLoan | src/controllers/loanController.js:219-296 | missing, zero or negative days is 400; unknown 404; not extendable 400; at the cap 400 reporting the count; otherwise the extension is stored, answered 200 when its user and book exist and 500 otherwise |
| MonolithLoanController.Row | src/controllers/loanController.js:190-205 | an overdue row joins the entry with its user's name and email and its book's title and author |
| MonolithLoanController.OverdueListing | src/controllers/loanController.js:173-216 | all rows exactly when every overdue loan's user and book exist, otherwise 500 |
| MonolithLoanController.History | src/controllers/loanController.js:153-164 | a history row carries the loan and its book's id, title and author |
| MonolithLoanController.UserLoanHistory | src/controllers/loanController.js:147-170 | the user's loans, each with its book, exactly when every book exists; otherwise 500 with the null-book error |
| MonolithLoanController.HistoryIsUsersNewestFirst | src/controllers/loanController.js:149-151 | a successful history holds only the user's loans, newest first |
| MonolithBookController.CreateBook | src/controllers/bookController.js:4-26 | a used ISBN is 400; otherwise 201 with a new book with all copies available |
| MonolithBookController.GetBooks | src/controllers/bookController.js:29-48 | without a search every book, with one exactly the matching books with their multiplicities, in collection order (a subsequence of the collection) |
| MonolithBookController.GetBookById | src/controllers/bookController.js:51-61 | the book exactly when it exists, otherwise 404 |
| MonolithBookController.UpdateBook | src/controllers/bookController.js:64-96 | 404 for an unknown id; a refused update stores nothing; an accepted one stores the patched book |
| MonolithBookController.DeleteBook | src/controllers/bookController.js:99-115 | 404 for an unknown id; a book with a copy out stays and gets 400; otherwise it is removed |
| MonolithStatsController.Joined | src/controllers/statsController.js:21-31 | the lookup with unwind keeps exactly the groups whose key has a document, as a subsequence of its input, so a descending input stays descending |
| MonolithStatsController.JoinedTop | src/controllers/statsController.js:10-31 | exactly the top-n groups (`TopTallies`) whose key has a document, in their order, each with its key's counts, in descending count |
| MonolithStatsController.JoinedGroups | src/controllers/statsController.js:21-31 | joining groups that hold their counts in descending order keeps exactly the documented ones, in order, still holding their counts |
| MonolithStatsController.KeyLeftOutCountsLess | src/controllers/statsController.js:15-31 | a documented key missing from the join of the top groups counts no more than any joined group |
| MonolithStatsController.BookRowOf | src/controllers/statsController.js:32-39 | a popular-book row shows the book's title and author and its loan count |
| MonolithStatsController.BookRows | src/controllers/statsController.js:32-39 | every joined group becomes its book row, in order |
| MonolithStatsController.PopularBooks | src/controllers/statsController.js:6-46 | row i is the i-th joined top-ten group (`JoinedTop`): existing books, each with its title, author and loan count, in descending count |
| MonolithStatsController.PopularBooksAreMostBorrowed | src/controllers/statsController.js:6-46 | an existing book that is not listed was borrowed no more often than any listed book |
| MonolithStatsController.UserRowOf | src/controllers/statsController.js:80-87 | an active-user row shows the user's name, total loans and ACTIVE loans |
| MonolithStatsController.UserRows | src/controllers/statsController.js:80-87 | every joined group becomes its user row, in order |
| MonolithStatsController.ActiveUsers | src/controllers/statsController.js:49-94 | row i is the i-th joined top-ten user group (`JoinedTop`): existing users, totals and ACTIVE counts with current <= total, in descending total |
| MonolithStatsController.ActiveUsersAreMostActive | src/controllers/statsController.js:49-94 | an existing user who is not listed borrowed no more often than any listed user |
| MonolithStatsController.PopularBooksComplete | src/controllers/statsController.js:6-46 | when every loan's book exists, the list has min(10, borrowed books) rows |
| MonolithStatsController.CountedKeyOccurs | src/controllers/statsController.js:10-20 | every grouped key is the key of some loan |
| MonolithStatsController.DeletedBookShortensList | src/controllers/statsController.js:21-31 | a loan whose book is gone contributes no row |
| MonolithStatsController.SystemOverview | src/controllers/statsController.js:97-144 | the overview's counts are the book totals, the user count, the status counts and the loans issued and returned since midnight |
| MonolithStatsController.OverviewConsistent | src/controllers/statsController.js:110-128 | for well-formed loans, borrowed + overdue + returned today never exceeds all loans |
| UserController.CreateUser | user-service/controllers/userController.js:4-22 | a used email is 400 and nothing is stored; otherwise the user is stored with 201; emails stay unique |
| UserController.FirstWithEmail | user-service/controllers/userController.js:47 | the first document with the email, found exactly when one exists |
| UserController.GetUserByEmail | user-service/controllers/userController.js:38-55 | no email is 400; a user exactly when one has the email, otherwise 404 |
| UserController.ErrorReply | user-service/controllers/userController.js:69-83 | a repeated role is 403, the other refusals 400 |
| UserController.UpdateRefusal | user-service/controllers/userController.js:66-84 | refused for a changed email already in use, for a role outside student and faculty, or for the role the user already has; an accepted role is valid and new |
| UserController.UpdateUser | user-service/controllers/userController.js:58-107 | 404 for an unknown id; a refusal stores nothing; otherwise the truthy fields are stored; emails stay unique |
| UserController.RepeatedRoleChangeIsForbidden | user-service/controllers/userController.js:75-84 | a role change that went through is refused with 403 when repeated |
| UserController.EmptyUpdateChangesNothing | user-service/controllers/userController.js:88-103 | an update with only empty or absent fields is never refused and changes nothing |
| MonolithUserController.CreateUser | src/controllers/userController.js:4-20 | the same email rule as the user service |
| MonolithUserController.Assigned | src/controllers/userController.js:44-54 | the email changes only when sent non-empty; name and role are assigned whenever sent, even empty |
| MonolithUserController.UpdateUser | src/controllers/userController.js:36-62 | 404; a changed email in use is 400; a failed save is 500 and stores nothing; otherwise the assigned user is stored; emails stay unique |
| MonolithUserController.EmptyNameDiffers | src/controllers/userController.js:53-54 | an empty name erases the name in the monolith and leaves it in the user service |
| Scenarios.MonolithOneCopy | src/controllers/loanController.js:8-144 | with one copy: lend, second loan refused 400, return, lend again; the available count goes 0, 0, 1, 0 |
| Scenarios.ServiceOneCopy | loan-service/controllers/loanController.js:12-147 | the same sequence through the loan service as written, with prompt remote calls: the monolith's replies except the second, which is 500 "Book service unavailable: Cannot update book availability at this time"; counts 0, 0, 1, 0 |
| Scenarios.MonolithLendTwice | src/controllers/loanController.js:8-61 | from one free copy: the first loan is created with status ACTIVE and takes the copy, the second is refused 400 and changes nothing |
| Scenarios.MonolithReturnAndLend | src/controllers/loanController.js:8-144 | from the lent copy: the return answers 200 with status RETURNED and frees the copy, and a new loan takes it again |
| Scenarios.ServiceLendTwice | loan-service/controllers/loanController.js:12-45 | the first two requests through the loan service as written: created, then 500 at the refused decrement, leaving one loan and no free copy |
| Scenarios.ServiceSecondLoanCorrected | loan-service/controllers/loanController.js:12-45 | the second request through the corrected handler is refused 400 "Book is not available for loan" and writes nothing |
| Scenarios.ServiceDoubleReturn | loan-service/controllers/loanController.js:119-147 | on a two-copy book with both copies lent, returning the first loan twice succeeds twice and leaves both copies free while the second loan is still out |
| Scenarios.ServiceReturnAndLend | loan-service/controllers/loanController.js:12-147 | the return through the loan service frees the copy and a new loan takes it again |
| Sequences.Filter | src/controllers/bookController.js:34-43 | filtering keeps exactly the satisfying elements, each as often as before, as a subsequence of the input (their order kept) |
| Sequences.SortBy | src/controllers/loanController.js:149-151 | sorting yields an ascending permutation |
| Sequences.TakeSortedKeepsLeast | src/controllers/statsController.js:15-20 | the limit keeps a prefix, and nothing dropped has a smaller key than anything kept |
| Sequences.FilterKeepsSorted | src/controllers/statsController.js:21-31 | a filter after a sort keeps the order |

## Left out

- The breaker's state machine (opening after failures, half-open, reset), its rolling windows and
  its event logging. Whether the breaker is open is an input of each call.
- Concurrency between requests. Each handler runs alone, so two racing loans of the last copy are
  not modelled.
- MongoDB persistence, indexes and sessions. Transactions are modelled only as the snapshot and
  restore of the one loan `returnBook` writes.
- HTTP routing, the express-validator middleware, CORS and JSON parsing. The availability route is
  the only route modelled.
- Dates: ISO formatting, time zones, daylight-saving time and `setDate`. A day is 86 400 000 ms,
  and local midnight is a parameter.
- `parseInt` and `isNaN` of `extension_days`. Days are an optional integer, which may be zero or
  negative; the monolith's string concatenation of the days into the date is not modelled.
- The search regular expression is a `matches` parameter, and ObjectIds are fresh-id parameters.
- `models/Loan.js`, `models/Book.js` and `models/User.js` are not part of this model. The schema
  defaults are assumed in `Records.NewLoan`.
- A failed save (schema validation, a database error) is an input only of these handlers:
  `LoanController.CreateLoan` and `LoanController.CreateLoanCorrected` (`saveError`),
  `MonolithLoanController.CreateLoan` (`bookSaveError`, `loanSaveError`),
  `MonolithUserController.UpdateUser` (`saveFails`) and `BookController.UpdateBookAvailability`
  (`save`).
- Save assumed to succeed, in every other handler that writes: `BookController.CreateBook`,
  `BookController.UpdateBook`, `BookController.DeleteBook`, `MonolithBookController.CreateBook`,
  `MonolithBookController.UpdateBook`, `MonolithBookController.DeleteBook`,
  `UserController.CreateUser`, `UserController.UpdateUser`, `MonolithUserController.CreateUser`,
  `LoanController.UpdateLoan`, `LoanController.ExtendLoan`, `MonolithLoanController.ExtendLoan`,
  `MonolithLoanController.ReturnBook`, and the `loan.save({ session })` step of
  `LoanController.ReturnBook` and `LoanController.ReturnBookGuarded`. In the source a rejected save
  is caught and answered 500 with nothing stored; the model does not have that path for them.
- The stat service's `utilities/circuitBreaker.js` is not part of this model. It is assumed to be
  identical to the loan service's.
- The broken references: book-service's `getPopularBooks` endpoint (it calls an undefined
  `getPopularBooksData`), a stats route calling the unimported `getActiveUsersData`, and the stat
  service's wiring. Only the loan-service functions they would reach are modelled.
- Loan service `getLoanById` and `getUserLoans`, the services' `getUserById` handlers, and the user
  service's `countUsers` and `getActiveUsers`. These are plain lookups with no rule beyond a 404.
- The remaining proxy modules (`stat-service/services/LoanApi.js`, `UserApi.js`,
  `book-service/services/StatsApi.js`, `user-service/services/LoanApi.js`) and
  `loan-service/services/userService.js`. They repeat the modelled proxy shapes.
- The client (`client/src`), health controllers and service entry points.
- BookRules.AcceptedUpdateStock: relies on `CountsValidated` as a hypothesis, because the handlers
  never enforce the validators.
- GetBooks: takes `page` and `per_page` as integers already parsed. The `parseInt` of the query
  strings is not modelled: the defaults 1 and 10, prefixes like "2abc", and the `NaN` a non-numeric
  value gives, whose effect on `.skip`/`.limit` is decided by the MongoDB driver, which is not part
  of this model. The ISO `created_at`/`updated_at` strings and the `isbn` member of each listed book
  are not modelled either.
- LoanController.ExtendLoan: the response body's ISO strings are not modelled. The reply carries
  the stored loan.

## Findings

| source | as written | input that shows it | evidently intended | confidence | as-written member | corrected member |
|---|---|---|---|---|---|---|
| loan-service/controllers/loanController.js:4-9 | imports `updateBookAvailability` from `services/BookApi.js`, which exports only `getBookById`, `decreaseBookAvailability` and `increaseBookAvailability`, so the module cannot link | loading the loan service's controller module | the guarded availability write of the statistics service's `BookApi.js`, which exports it | not executed | LoanBookApi.ControllerImportUnresolved | LoanBookApi.CorrectedImportLinks |
| loan-service/controllers/loanController.js:25-29 | checks `book.availableCopies <= 0`, but the book service sends the count as `available_copies`, so `undefined <= 0` is false and the check never refuses | a found user and a book with `available_copies: 0`: the request goes on to the decrement, which the book service refuses, and the caller gets 500 "Book service unavailable: Cannot update book availability at this time" instead of 400 "Book is not available for loan" | refuse a loan when `available_copies <= 0` | not executed | LoanController.CreateLoan | LoanController.CreateLoanCorrected |
| loan-service/controllers/loanController.js:132-137 | marks the loan RETURNED and increments its book without checking that it was still out | a two-copy book with two loans out: returning the first loan twice credits a copy on each return, so the book shows both copies free while the second loan is still out | refuse a RETURNED loan before any write, as the monolith does | not executed | Scenarios.ServiceDoubleReturn | LoanController.ReturnBookGuarded |
