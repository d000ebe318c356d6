/**
 * The loan service's controller. Loans live in the service's own table; books live in the book
 * service and are reached over HTTP: the lookups through the loan service's proxies, the
 * availability change through `updateBookAvailability`, whose import does not resolve as written
 * and is bound here to the statistics service's guarded write against the book service's
 * `PATCH /books/:id/availability` handler.
 */
module LoanController {
  import opened Outcomes
  import opened Records
  import opened Transport
  import opened LoanMachine
  import opened Consistency
  import CircuitBreaker
  import StatBookApi
  import LoanBookApi
  import LoanUserApi
  import BookController
  import LoanStats

  // ------------------------------------------------------ the remote availability change

  /**
   * How one availability request travels: the breaker is open and nothing is sent; the request
   * never reaches the book service; or the handler runs, with its database steps, and its reply
   * arrives `elapsedMs` after the request was sent.
   */
  datatype Delivery =
    | ShortCircuited
    | Lost(elapsedMs: nat, message: string)
    | Reached(elapsedMs: nat, find: BookController.DbStep, save: BookController.DbStep)

  /** The book service's table changes: the handler ran, its guarded step passed and its write landed. */
  predicate Lands(rows: map<Id, Book>, bookId: Id, operation: string, d: Delivery)
  {
    && d.Reached?
    && d.find.Done?
    && BookController.PlanAvailability(rows, bookId, operation).Success?
    && (d.save.Done? || d.save == BookController.Late(true))
  }

  /** The time the caller waits; a short-circuit answers at once. */
  function Elapsed(d: Delivery): nat
  {
    match d
    case ShortCircuited => 0
    case Lost(ms, _) => ms
    case Reached(ms, _, _) => ms
  }

  /**
   * `updateBookAvailability(bookId, null, operation)`, end to end. The caller sees success exactly
   * when the write landed in time for axios; every failure is the one fixed error. The table
   * changes exactly when the write lands, which includes requests the caller sees fail.
   */
  method RemoteUpdateAvailability(inventory: BookTable, bookId: Id, operation: string, d: Delivery)
    returns (s: Settled<BookController.AvailabilityJson>)
    modifies inventory
    ensures inventory.rows
            == if Lands(old(inventory.rows), bookId, operation, d)
               then old(inventory.rows)[bookId := BookController.PlanAvailability(old(inventory.rows), bookId, operation).value]
               else old(inventory.rows)
    ensures s.Fulfilled?
            <==> Lands(old(inventory.rows), bookId, operation, d) && d.save.Done? && d.elapsedMs < StatBookApi.ApiTimeoutMs
    ensures s.Rejected? ==> s.message == StatBookApi.UpdateUnavailable
    ensures old(StockValid(inventory.rows)) ==> StockValid(inventory.rows)
  {
    match d {
      case ShortCircuited =>
        s := StatBookApi.UpdateBookAvailability(CircuitBreaker.Guard(true, 0), NoResponse("Breaker is open"));
      case Lost(ms, m) =>
        s := StatBookApi.UpdateBookAvailability(CircuitBreaker.Guard(false, ms), NoResponse(m));
      case Reached(ms, find, save) =>
        var reply := BookController.UpdateBookAvailability(inventory, bookId, operation, find, save);
        s := StatBookApi.UpdateBookAvailability(CircuitBreaker.Guard(false, ms), FromReply(reply));
    }
  }

  // ------------------------------------------------------------------- create

  /**
   * The availability check as written: `book.availableCopies <= 0` on the JSON the book service
   * sends, where an absent member is `undefined` and the comparison is false.
   */
  predicate BookLooksUnavailable(json: BookJson)
  {
    "availableCopies" in json.numbers && json.numbers["availableCopies"] <= 0
  }

  /** The book service's JSON names the count `available_copies`, so the check as written never refuses. */
  lemma AvailabilityCheckNeverFires(id: Id, b: Book)
    ensures !BookLooksUnavailable(BookController.FormatBook(id, b))
  {
  }

  /** The check reading the member the book service sends. */
  predicate BookUnavailable(json: BookJson)
  {
    "available_copies" in json.numbers && json.numbers["available_copies"] <= 0
  }

  /** The corrected check refuses exactly the books with no available copy. */
  lemma AvailabilityCheckCorrected(id: Id, b: Book)
    ensures BookUnavailable(BookController.FormatBook(id, b)) <==> b.availableCopies <= 0
  {
  }

  /** How the book lookup settles: the book service's answer for its current table, or a lost request. */
  function BookLookup(rows: map<Id, Book>, bookId: Id, bookLost: Option<string>): (s: Settled<Option<BookJson>>)
    ensures bookLost.Some? ==> s.Rejected?
    ensures bookLost.None? ==> s == if bookId in rows then Fulfilled(Some(BookController.FormatBook(bookId, rows[bookId])))
                                   else Fulfilled(None)
  {
    if bookLost.Some? then LoanBookApi.GetBookById(NoResponse(bookLost.value))
    else LoanBookApi.GetBookById(FromReply(BookController.GetBookById(rows, bookId)))
  }

  /** Which availability check a handler applies: the one written, or the one reading `available_copies`. */
  datatype AvailabilityCheck = AsWritten | Corrected

  predicate Refuses(check: AvailabilityCheck, json: BookJson)
  {
    match check
    case AsWritten => BookLooksUnavailable(json)
    case Corrected => BookUnavailable(json)
  }

  /** The refusals before any write, in the handler's order; `None` when the loan may go ahead. */
  function CreateRefusal(user: Settled<Option<User>>, book: Settled<Option<BookJson>>, check: AvailabilityCheck)
    : (e: Option<Reply<Loan>>)
    ensures e.Some? ==> e.value.Failure?
    ensures e.None? <==> user.Fulfilled? && user.value.Some? && book.Fulfilled? && book.value.Some?
                         && !Refuses(check, book.value.value)
    ensures user.Rejected? ==> e == Some(Failure(500, user.message))
    ensures user == Fulfilled(None) ==> e == Some(Failure(404, "User not found"))
    ensures user.Fulfilled? && user.value.Some? && book.Rejected? ==> e == Some(Failure(500, book.message))
    ensures user.Fulfilled? && user.value.Some? && book == Fulfilled(None) ==> e == Some(Failure(404, "Book not found"))
    ensures user.Fulfilled? && user.value.Some? && book.Fulfilled? && book.value.Some? && Refuses(check, book.value.value)
            ==> e == Some(Failure(400, "Book is not available for loan"))
  {
    if user.Rejected? then Some(Failure(500, user.message))
    else if user.value.None? then Some(Failure(404, "User not found"))
    else if book.Rejected? then Some(Failure(500, book.message))
    else if book.value.None? then Some(Failure(404, "Book not found"))
    else if Refuses(check, book.value.value) then Some(Failure(400, "Book is not available for loan"))
    else None
  }

  /**
   * On what the book service sends, the handler as written never refuses with "Book is not
   * available for loan", while the corrected check refuses exactly the books with no copy free.
   */
  lemma {:induction false} StockRefusalByCheck(user: Settled<Option<User>>, rows: map<Id, Book>, bookId: Id)
    ensures CreateRefusal(user, BookLookup(rows, bookId, None), AsWritten) != Some(Failure(400, "Book is not available for loan"))
    ensures user.Fulfilled? && user.value.Some? && bookId in rows
            ==> (CreateRefusal(user, BookLookup(rows, bookId, None), Corrected) == Some(Failure(400, "Book is not available for loan"))
                 <==> rows[bookId].availableCopies <= 0)
  {
    if bookId in rows {
      AvailabilityCheckNeverFires(bookId, rows[bookId]);
      AvailabilityCheckCorrected(bookId, rows[bookId]);
    }
  }

  /**
   * `createLoan`. The lookups and the availability check write nothing. The decrement runs before
   * the loan is saved, so a failed decrement leaves no loan; a save that fails after a decrement has
   * landed is not compensated, and neither is a decrement that lands after the caller gave up.
   * `loanId` is the id the new document gets; `saveError` is the error of `loan.save()`, if any.
   */
  method CreateLoan(loans: LoanTable, inventory: BookTable, loanId: Id, userId: Id, bookId: Id, dueDate: int, now: int,
                    userElapsedMs: nat, userReply: HttpResult<User>, bookLost: Option<string>,
                    decrement: Delivery, saveError: Option<string>)
    returns (r: Reply<Loan>)
    requires loanId !in loans.rows
    modifies loans, inventory
    ensures var refusal := CreateRefusal(LoanUserApi.GetUserById(userElapsedMs, userReply),
                                         BookLookup(old(inventory.rows), bookId, bookLost), AsWritten);
            refusal.Some? ==> r == refusal.value && loans.rows == old(loans.rows) && inventory.rows == old(inventory.rows)
    ensures !r.Success? ==> loans.rows == old(loans.rows)
    ensures CreateRefusal(LoanUserApi.GetUserById(userElapsedMs, userReply), BookLookup(old(inventory.rows), bookId, bookLost), AsWritten).None?
            && !(Lands(old(inventory.rows), bookId, "decrement", decrement) && decrement.save.Done?
                 && decrement.elapsedMs < StatBookApi.ApiTimeoutMs)
            ==> r == Failure(500, StatBookApi.UpdateUnavailable)
    ensures LoanUserApi.GetUserById(userElapsedMs, userReply).Fulfilled? && LoanUserApi.GetUserById(userElapsedMs, userReply).value.Some?
            && bookLost.None? && bookId in old(inventory.rows) && old(inventory.rows)[bookId].availableCopies <= 0
            ==> r == Failure(500, StatBookApi.UpdateUnavailable) && loans.rows == old(loans.rows) && inventory.rows == old(inventory.rows)
    ensures r.Success?
            <==> CreateRefusal(LoanUserApi.GetUserById(userElapsedMs, userReply), BookLookup(old(inventory.rows), bookId, bookLost), AsWritten).None?
                 && Lands(old(inventory.rows), bookId, "decrement", decrement) && decrement.save.Done?
                 && decrement.elapsedMs < StatBookApi.ApiTimeoutMs && saveError.None?
    ensures r.Success? ==> r == Success(201, NewLoan(userId, bookId, dueDate, None, now))
                           && loans.rows == old(loans.rows)[loanId := NewLoan(userId, bookId, dueDate, None, now)]
                           && bookId in old(inventory.rows)
                           && inventory.rows == old(inventory.rows)[bookId := old(inventory.rows)[bookId].(availableCopies := old(inventory.rows)[bookId].availableCopies - 1)]
    ensures r.Success? && old(Conserved(inventory.rows, loans.rows)) ==> Conserved(inventory.rows, loans.rows)
    ensures !r.Success? && inventory.rows != old(inventory.rows) && old(Conserved(inventory.rows, loans.rows))
            ==> !Conserved(inventory.rows, loans.rows)
    ensures old(StockValid(inventory.rows)) ==> StockValid(inventory.rows)
  {
    var user := LoanUserApi.GetUserById(userElapsedMs, userReply);
    var book := BookLookup(inventory.rows, bookId, bookLost);
    var refusal := CreateRefusal(user, book, AsWritten);
    if refusal.Some? {
      return refusal.value;
    }
    var loan := NewLoan(userId, bookId, dueDate, None, now);
    ghost var books0 := inventory.rows;
    var decreased := RemoteUpdateAvailability(inventory, bookId, "decrement", decrement);
    if decreased.Rejected? {
      if inventory.rows != books0 && Conserved(books0, loans.rows) {
        LoneAvailabilityChangeBreaks(books0, loans.rows, bookId, -1);
      }
      return Failure(500, decreased.message);
    }
    if saveError.Some? {
      if Conserved(books0, loans.rows) {
        LoneAvailabilityChangeBreaks(books0, loans.rows, bookId, -1);
      }
      return Failure(500, saveError.value);
    }
    if Conserved(books0, loans.rows) {
      ConservedAfterLoan(books0, loans.rows, loanId, loan);
    }
    loans.rows := loans.rows[loanId := loan];
    r := Success(201, loan);
  }

  /**
   * `createLoan` with the availability check reading `available_copies`: a book with no copy free
   * is refused with 400 before any write; every other request goes on exactly as in the handler as
   * written, whose check lets it through.
   */
  method CreateLoanCorrected(loans: LoanTable, inventory: BookTable, loanId: Id, userId: Id, bookId: Id, dueDate: int,
                             now: int, userElapsedMs: nat, userReply: HttpResult<User>, bookLost: Option<string>,
                             decrement: Delivery, saveError: Option<string>)
    returns (r: Reply<Loan>)
    requires loanId !in loans.rows
    modifies loans, inventory
    ensures var refusal := CreateRefusal(LoanUserApi.GetUserById(userElapsedMs, userReply),
                                         BookLookup(old(inventory.rows), bookId, bookLost), Corrected);
            refusal.Some? ==> r == refusal.value && loans.rows == old(loans.rows) && inventory.rows == old(inventory.rows)
    ensures LoanUserApi.GetUserById(userElapsedMs, userReply).Fulfilled? && LoanUserApi.GetUserById(userElapsedMs, userReply).value.Some?
            && bookLost.None? && bookId in old(inventory.rows) && old(inventory.rows)[bookId].availableCopies <= 0
            ==> r == Failure(400, "Book is not available for loan") && loans.rows == old(loans.rows) && inventory.rows == old(inventory.rows)
    ensures !r.Success? ==> loans.rows == old(loans.rows)
    ensures r.Success?
            <==> CreateRefusal(LoanUserApi.GetUserById(userElapsedMs, userReply), BookLookup(old(inventory.rows), bookId, bookLost), Corrected).None?
                 && Lands(old(inventory.rows), bookId, "decrement", decrement) && decrement.save.Done?
                 && decrement.elapsedMs < StatBookApi.ApiTimeoutMs && saveError.None?
    ensures r.Success? ==> r == Success(201, NewLoan(userId, bookId, dueDate, None, now))
                           && loans.rows == old(loans.rows)[loanId := NewLoan(userId, bookId, dueDate, None, now)]
                           && bookId in old(inventory.rows) && old(inventory.rows)[bookId].availableCopies > 0
                           && inventory.rows == old(inventory.rows)[bookId := old(inventory.rows)[bookId].(availableCopies := old(inventory.rows)[bookId].availableCopies - 1)]
    ensures r.Success? && old(Conserved(inventory.rows, loans.rows)) ==> Conserved(inventory.rows, loans.rows)
    ensures old(StockValid(inventory.rows)) ==> StockValid(inventory.rows)
  {
    var user := LoanUserApi.GetUserById(userElapsedMs, userReply);
    var book := BookLookup(inventory.rows, bookId, bookLost);
    var refusal := CreateRefusal(user, book, Corrected);
    if refusal.Some? {
      return refusal.value;
    }
    AvailabilityCheckNeverFires(bookId, inventory.rows[bookId]);
    r := CreateLoan(loans, inventory, loanId, userId, bookId, dueDate, now, userElapsedMs, userReply, bookLost, decrement, saveError);
  }

  // ------------------------------------------------------------------- return

  /**
   * `returnBook` as written. The loan is marked RETURNED inside a session whatever its status; the
   * session commits only if the remote increment succeeds and is otherwise aborted, which restores
   * the stored loan. An increment that lands after the caller gave up stays.
   */
  method ReturnBook(loans: LoanTable, inventory: BookTable, loanId: Id, now: int, increment: Delivery)
    returns (r: Reply<Loan>)
    modifies loans, inventory
    ensures loanId !in old(loans.rows)
            ==> r == Failure(404, "Loan not found") && loans.rows == old(loans.rows) && inventory.rows == old(inventory.rows)
    ensures loanId in old(loans.rows)
            ==> var b := old(loans.rows)[loanId].book;
                && inventory.rows == (if Lands(old(inventory.rows), b, "increment", increment)
                                      then old(inventory.rows)[b := old(inventory.rows)[b].(availableCopies := old(inventory.rows)[b].availableCopies + 1)]
                                      else old(inventory.rows))
                && (r.Success? <==> Lands(old(inventory.rows), b, "increment", increment) && increment.save.Done?
                                    && increment.elapsedMs < StatBookApi.ApiTimeoutMs)
                && (r.Success? ==> r == Success(200, MarkReturned(old(loans.rows)[loanId], now))
                                   && loans.rows == old(loans.rows)[loanId := MarkReturned(old(loans.rows)[loanId], now)])
                && (!r.Success? ==> r == Failure(500, StatBookApi.UpdateUnavailable) && loans.rows == old(loans.rows))
    ensures loanId in old(loans.rows) && old(loans.rows)[loanId].status != Returned
            && r.Success? && old(Conserved(inventory.rows, loans.rows))
            ==> Conserved(inventory.rows, loans.rows)
    ensures loanId in old(loans.rows) && old(loans.rows)[loanId].status == Returned
            && r.Success? && old(Conserved(inventory.rows, loans.rows))
            ==> !Conserved(inventory.rows, loans.rows)
    ensures !r.Success? && inventory.rows != old(inventory.rows) && old(Conserved(inventory.rows, loans.rows))
            ==> !Conserved(inventory.rows, loans.rows)
  {
    if loanId !in loans.rows {
      return Failure(404, "Loan not found");
    }
    var snapshot := loans.rows;
    ghost var books0 := inventory.rows;
    var loan := MarkReturned(loans.rows[loanId], now);
    loans.rows := loans.rows[loanId := loan];
    var increased := RemoteUpdateAvailability(inventory, loan.book, "increment", increment);
    if increased.Rejected? {
      loans.rows := snapshot;
      if inventory.rows != books0 && Conserved(books0, snapshot) {
        LoneAvailabilityChangeBreaks(books0, snapshot, loan.book, 1);
      }
      return Failure(500, increased.message);
    }
    if Conserved(books0, snapshot) {
      if snapshot[loanId].status != Returned {
        ConservedAfterReturn(books0, snapshot, loanId, now);
      } else {
        DoubleReturnBreaksInvariant(books0, snapshot, loanId, now);
      }
    }
    r := Success(200, loan);
  }

  /**
   * `returnBook` with the RETURNED guard the monolith has: a returned loan is refused before the
   * session writes anything, so a successful return always keeps the books conserved.
   */
  method ReturnBookGuarded(loans: LoanTable, inventory: BookTable, loanId: Id, now: int, increment: Delivery)
    returns (r: Reply<Loan>)
    modifies loans, inventory
    ensures loanId !in old(loans.rows)
            ==> r == Failure(404, "Loan not found") && loans.rows == old(loans.rows) && inventory.rows == old(inventory.rows)
    ensures loanId in old(loans.rows) && old(loans.rows)[loanId].status == Returned
            ==> r == Failure(400, "Book already returned or loan not found") && loans.rows == old(loans.rows) && inventory.rows == old(inventory.rows)
    ensures r.Success? ==> loanId in old(loans.rows) && old(loans.rows)[loanId].status != Returned
                           && r == Success(200, MarkReturned(old(loans.rows)[loanId], now))
                           && loans.rows == old(loans.rows)[loanId := MarkReturned(old(loans.rows)[loanId], now)]
    ensures !r.Success? ==> loans.rows == old(loans.rows)
    ensures r.Success? && old(Conserved(inventory.rows, loans.rows)) ==> Conserved(inventory.rows, loans.rows)
  {
    if loanId !in loans.rows {
      return Failure(404, "Loan not found");
    }
    if loans.rows[loanId].status == Returned {
      return Failure(400, "Book already returned or loan not found");
    }
    r := ReturnBook(loans, inventory, loanId, now, increment);
  }

  // ------------------------------------------------------------- update / extend

  /**
   * `updateLoan`: with a due date, sets it and marks the loan OVERDUE when it lies before `now`;
   * without one, stores nothing and returns the loan. An unknown id is 404.
   */
  method UpdateLoan(loans: LoanTable, id: Id, dueDate: Option<int>, now: int) returns (r: Reply<Loan>)
    modifies loans
    ensures id !in old(loans.rows) ==> r == Failure(404, "Loan not found") && loans.rows == old(loans.rows)
    ensures id in old(loans.rows) && dueDate.None? ==> r == Success(200, old(loans.rows)[id]) && loans.rows == old(loans.rows)
    ensures id in old(loans.rows) && dueDate.Some?
            ==> loans.rows == old(loans.rows)[id := UpdateDue(old(loans.rows)[id], dueDate.value, now)]
                && r == Success(200, loans.rows[id])
  {
    if id !in loans.rows {
      return Failure(404, "Loan not found");
    }
    if dueDate.Some? {
      loans.rows := loans.rows[id := UpdateDue(loans.rows[id], dueDate.value, now)];
    }
    r := Success(200, loans.rows[id]);
  }

  /** The 400 message of each refused extension. */
  function ExtendMessage(e: ExtendError): string
  {
    match e
    case NotExtendable(_) => "Can only extend active or overdue loans"
    case CapReached(_) => "Maximum number of extensions reached"
  }

  /**
   * `extendLoan`: missing or non-positive days are refused before the lookup; then an unknown id is
   * 404 and a refused extension 400, none of them storing anything.
   */
  method ExtendLoan(loans: LoanTable, id: Id, days: Option<int>) returns (r: Reply<Loan>)
    modifies loans
    ensures (days.None? || days.value <= 0) ==> r == Failure(400, "Invalid extension days") && loans.rows == old(loans.rows)
    ensures days.Some? && days.value > 0 && id !in old(loans.rows)
            ==> r == Failure(404, "Loan not found") && loans.rows == old(loans.rows)
    ensures days.Some? && days.value > 0 && id in old(loans.rows) && Extend(old(loans.rows)[id], days.value).Refused?
            ==> r == Failure(400, ExtendMessage(Extend(old(loans.rows)[id], days.value).error)) && loans.rows == old(loans.rows)
    ensures days.Some? && days.value > 0 && id in old(loans.rows) && Extend(old(loans.rows)[id], days.value).Extended?
            ==> loans.rows == old(loans.rows)[id := Extend(old(loans.rows)[id], days.value).loan]
                && r == Success(200, loans.rows[id])
    ensures old(forall x :: x in loans.rows ==> WellFormed(loans.rows[x])) ==> forall x :: x in loans.rows ==> WellFormed(loans.rows[x])
  {
    if days.None? || days.value <= 0 {
      return Failure(400, "Invalid extension days");
    }
    if id !in loans.rows {
      return Failure(404, "Loan not found");
    }
    match Extend(loans.rows[id], days.value) {
      case Refused(e) =>
        r := Failure(400, ExtendMessage(e));
      case Extended(l) =>
        loans.rows := loans.rows[id := l];
        r := Success(200, l);
    }
  }

  // ------------------------------------------------------------------- listings

  datatype Party = Party(id: Id, name: string, email: string)

  /** The user part of an overdue row: the user's details when the lookup found them, the placeholders otherwise. */
  function UserParty(userId: Id, lookup: Settled<Option<User>>): (p: Party)
    ensures lookup.Fulfilled? && lookup.value.Some? ==> p == Party(userId, lookup.value.value.name, lookup.value.value.email)
    ensures !(lookup.Fulfilled? && lookup.value.Some?) ==> p == Party(userId, "Unknown", "unknown@example.com")
  {
    match lookup
    case Fulfilled(Some(u)) => Party(userId, u.name, u.email)
    case _ => Party(userId, "Unknown", "unknown@example.com")
  }

  datatype OverdueRow = OverdueRow(entry: OverdueEntry, user: Party, title: string, author: string)

  /** One overdue row: the entry with the looked-up user and book, or their placeholders. */
  function Row(e: OverdueEntry, user: Settled<Option<User>>, book: Settled<Option<BookJson>>): (row: OverdueRow)
    ensures row.entry == e && row.user == UserParty(e.user, user)
    ensures LoanStats.Label(row.title, row.author) == LoanStats.BookLabel(book)
  {
    var shown := LoanStats.BookLabel(book);
    OverdueRow(e, UserParty(e.user, user), shown.title, shown.author)
  }

  /** The row of one overdue entry, with the lookups of its own user and book. */
  function OverdueRowOf(e: OverdueEntry, users: Id -> Settled<Option<User>>, books: Id -> Settled<Option<BookJson>>): OverdueRow
  {
    Row(e, users(e.user), books(e.book))
  }

  /**
   * `getOverdueLoans`: every overdue loan in due-date order with its days overdue; a user or book
   * whose lookup fails or finds nothing is shown with placeholders and the row is kept.
   */
  function OverdueListing(docs: seq<LoanDoc>, now: int, users: Id -> Settled<Option<User>>,
                          books: Id -> Settled<Option<BookJson>>): (r: seq<OverdueRow>)
    ensures |r| == |OverdueReport(docs, now)|
    ensures forall i :: 0 <= i < |r| ==> r[i] == OverdueRowOf(OverdueReport(docs, now)[i], users, books)
  {
    var report := OverdueReport(docs, now);
    seq(|report|, i requires 0 <= i < |report| => OverdueRowOf(report[i], users, books))
  }
}
