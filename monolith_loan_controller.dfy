/**
 * The monolith's loan controller: users, books and loans are collections of one database. A loan
 * takes its copy by `availableCopies -= 1` and two saves; a return is a conditional update of the
 * loan and an `$inc` of the book inside one transaction.
 */
module MonolithLoanController {
  import opened Outcomes
  import opened Records
  import opened LoanMachine
  import opened Consistency

  /** `Loan.find({ user, status: "OVERDUE" })` finds a loan. */
  predicate HasOverdueLoan(loans: map<Id, Loan>, user: Id)
  {
    exists id | id in loans :: loans[id].user == user && loans[id].status == Overdue
  }

  /** The refusals of `createLoan` before any write, in the handler's order. */
  function CreateRefusal(users: map<Id, User>, books: map<Id, Book>, loans: map<Id, Loan>, userId: Id, bookId: Id)
    : (e: Option<Reply<Loan>>)
    ensures e.None? <==> userId in users && bookId in books && books[bookId].availableCopies > 0
                         && !HasOverdueLoan(loans, userId)
    ensures userId !in users ==> e == Some(Failure(404, "User not found"))
    ensures userId in users && bookId !in books ==> e == Some(Failure(404, "Book not found"))
    ensures userId in users && bookId in books && books[bookId].availableCopies <= 0
            ==> e == Some(Failure(400, "Book is not available for loan"))
    ensures userId in users && bookId in books && books[bookId].availableCopies > 0 && HasOverdueLoan(loans, userId)
            ==> e == Some(Failure(400, "User has overdue books"))
  {
    if userId !in users then Some(Failure(404, "User not found"))
    else if bookId !in books then Some(Failure(404, "Book not found"))
    else if books[bookId].availableCopies <= 0 then Some(Failure(400, "Book is not available for loan"))
    else if HasOverdueLoan(loans, userId) then Some(Failure(400, "User has overdue books"))
    else None
  }

  /**
   * `createLoan`: after the checks, `book.availableCopies -= 1; await book.save(); await loan.save()`
   * outside any transaction: a failing loan save leaves the copy taken. `loanId` is the id the new
   * loan gets; `bookSaveError` and `loanSaveError` are the errors of the two saves, if any.
   */
  method CreateLoan(users: UserTable, books: BookTable, loans: LoanTable, loanId: Id, userId: Id, bookId: Id,
                    dueDate: int, now: int, bookSaveError: Option<string>, loanSaveError: Option<string>)
    returns (r: Reply<Loan>)
    requires loanId !in loans.rows
    modifies books, loans
    ensures var refusal := CreateRefusal(users.rows, old(books.rows), old(loans.rows), userId, bookId);
            refusal.Some? ==> r == refusal.value && books.rows == old(books.rows) && loans.rows == old(loans.rows)
    ensures CreateRefusal(users.rows, old(books.rows), old(loans.rows), userId, bookId).None?
            ==> var taken := old(books.rows)[bookId := old(books.rows)[bookId].(availableCopies := old(books.rows)[bookId].availableCopies - 1)];
                var loan := NewLoan(userId, bookId, dueDate, Some(dueDate), now);
                && (bookSaveError.Some?
                    ==> r == Failure(500, bookSaveError.value) && books.rows == old(books.rows) && loans.rows == old(loans.rows))
                && (bookSaveError.None? && loanSaveError.Some?
                    ==> r == Failure(500, loanSaveError.value) && books.rows == taken && loans.rows == old(loans.rows))
                && (bookSaveError.None? && loanSaveError.None?
                    ==> r == Success(201, loan) && books.rows == taken && loans.rows == old(loans.rows)[loanId := loan])
    ensures r.Success? ==> r.value.dueDate == dueDate && r.value.originalDueDate == Some(dueDate)
    ensures r.Success? && old(Conserved(books.rows, loans.rows)) ==> Conserved(books.rows, loans.rows)
    ensures !r.Success? && books.rows != old(books.rows) && old(Conserved(books.rows, loans.rows))
            ==> !Conserved(books.rows, loans.rows)
    ensures old(StockValid(books.rows)) ==> StockValid(books.rows)
  {
    var refusal := CreateRefusal(users.rows, books.rows, loans.rows, userId, bookId);
    if refusal.Some? {
      return refusal.value;
    }
    var loan := NewLoan(userId, bookId, dueDate, Some(dueDate), now);
    var book := books.rows[bookId];
    book := book.(availableCopies := book.availableCopies - 1);
    if bookSaveError.Some? {
      return Failure(500, bookSaveError.value);
    }
    ghost var books0 := books.rows;
    books.rows := books.rows[bookId := book];
    if loanSaveError.Some? {
      if Conserved(books0, loans.rows) {
        LoneAvailabilityChangeBreaks(books0, loans.rows, bookId, -1);
      }
      return Failure(500, loanSaveError.value);
    }
    if Conserved(books0, loans.rows) {
      ConservedAfterLoan(books0, loans.rows, loanId, loan);
    }
    loans.rows := loans.rows[loanId := loan];
    r := Success(201, loan);
  }

  /**
   * `returnBook`: inside one transaction, the loan is updated only when it is not RETURNED, then its
   * book gets `$inc: { availableCopies: 1 }`. The loan's book is read through `populate`, so a loan
   * whose book no longer exists fails on the null book (500) and the transaction is aborted.
   */
  method ReturnBook(books: BookTable, loans: LoanTable, loanId: Id, now: int) returns (r: Reply<Loan>)
    modifies books, loans
    ensures loanId !in old(loans.rows)
            ==> r == Failure(404, "Loan not found") && books.rows == old(books.rows) && loans.rows == old(loans.rows)
    ensures loanId in old(loans.rows) && old(loans.rows)[loanId].status == Returned
            ==> r == Failure(400, "Book already returned or loan not found")
                && books.rows == old(books.rows) && loans.rows == old(loans.rows)
    ensures loanId in old(loans.rows) && old(loans.rows)[loanId].status != Returned && old(loans.rows)[loanId].book !in old(books.rows)
            ==> r == Failure(500, "Error returning book") && books.rows == old(books.rows) && loans.rows == old(loans.rows)
    ensures loanId in old(loans.rows) && old(loans.rows)[loanId].status != Returned && old(loans.rows)[loanId].book in old(books.rows)
            ==> var b := old(loans.rows)[loanId].book;
                && r == Success(200, MarkReturned(old(loans.rows)[loanId], now))
                && loans.rows == old(loans.rows)[loanId := MarkReturned(old(loans.rows)[loanId], now)]
                && books.rows == old(books.rows)[b := old(books.rows)[b].(availableCopies := old(books.rows)[b].availableCopies + 1)]
    ensures old(Conserved(books.rows, loans.rows)) ==> Conserved(books.rows, loans.rows)
    ensures old(Conserved(books.rows, loans.rows) && StockValid(books.rows)) ==> StockValid(books.rows)
  {
    if loanId !in loans.rows {
      return Failure(404, "Loan not found");
    }
    if loans.rows[loanId].status == Returned {
      return Failure(400, "Book already returned or loan not found");
    }
    var snapshot := loans.rows;
    var loan := MarkReturned(loans.rows[loanId], now);
    loans.rows := loans.rows[loanId := loan];
    if loan.book !in books.rows {
      loans.rows := snapshot;
      return Failure(500, "Error returning book");
    }
    ghost var books0 := books.rows;
    books.rows := books.rows[loan.book := books.rows[loan.book].(availableCopies := books.rows[loan.book].availableCopies + 1)];
    if Conserved(books0, snapshot) {
      ConservedAfterReturn(books0, snapshot, loanId, now);
      if StockValid(books0) {
        forall c | c in books.rows ensures InStock(books.rows[c]) {
          if c == loan.book {
            ConservedCapsAvailability(books.rows, loans.rows, c);
          }
        }
      }
    }
    r := Success(200, loan);
  }

  /**
   * `extendLoan`: missing or non-positive days are refused first; a refused cap reports the
   * current count. The response reads the populated user and book after the save, so an extension
   * of a loan whose user or book no longer exists is stored and still answered with 500.
   */
  method ExtendLoan(users: UserTable, books: BookTable, loans: LoanTable, id: Id, days: Option<int>)
    returns (r: Reply<Loan>, reportedCount: Option<nat>)
    modifies loans
    ensures (days.None? || days.value <= 0)
            ==> r == Failure(400, "Valid extension days are required") && reportedCount.None? && loans.rows == old(loans.rows)
    ensures days.Some? && days.value > 0 && id !in old(loans.rows)
            ==> r == Failure(404, "Loan not found") && reportedCount.None? && loans.rows == old(loans.rows)
    ensures days.Some? && days.value > 0 && id in old(loans.rows)
            ==> var l := old(loans.rows)[id];
                match Extend(l, days.value)
                case Refused(NotExtendable(_)) =>
                  r == Failure(400, "Can only extend active or overdue loans") && reportedCount.None?
                  && loans.rows == old(loans.rows)
                case Refused(CapReached(n)) =>
                  r == Failure(400, "Maximum number of extensions reached") && reportedCount == Some(n)
                  && n == l.extensionsCount && loans.rows == old(loans.rows)
                case Extended(l') =>
                  loans.rows == old(loans.rows)[id := l'] && reportedCount.None?
                  && r == (if l.user in users.rows && l.book in books.rows then Success(200, l')
                           else Failure(500, "Error extending loan"))
  {
    reportedCount := None;
    if days.None? || days.value <= 0 {
      return Failure(400, "Valid extension days are required"), None;
    }
    if id !in loans.rows {
      return Failure(404, "Loan not found"), None;
    }
    var l := loans.rows[id];
    match Extend(l, days.value) {
      case Refused(NotExtendable(_)) =>
        r := Failure(400, "Can only extend active or overdue loans");
      case Refused(CapReached(n)) =>
        r, reportedCount := Failure(400, "Maximum number of extensions reached"), Some(n);
      case Extended(l') =>
        loans.rows := loans.rows[id := l'];
        r := if l.user in users.rows && l.book in books.rows then Success(200, l') else Failure(500, "Error extending loan");
    }
  }

  // ------------------------------------------------------------------- listings

  datatype OverdueRow = OverdueRow(entry: OverdueEntry, userName: string, userEmail: string, title: string, author: string)

  /** Every overdue entry's user and book exist, so `populate` finds them. */
  predicate Populated(report: seq<OverdueEntry>, users: map<Id, User>, books: map<Id, Book>)
  {
    forall i :: 0 <= i < |report| ==> report[i].user in users && report[i].book in books
  }

  function Row(e: OverdueEntry, users: map<Id, User>, books: map<Id, Book>): (row: OverdueRow)
    requires e.user in users && e.book in books
    ensures row.entry == e && row.userName == users[e.user].name && row.userEmail == users[e.user].email
    ensures row.title == books[e.book].title && row.author == books[e.book].author
  {
    OverdueRow(e, users[e.user].name, users[e.user].email, books[e.book].title, books[e.book].author)
  }

  /**
   * `getOverdueLoans`: the overdue loans in due-date order, with days overdue and the populated user
   * and book; a loan whose user or book is missing makes the whole listing fail with 500.
   */
  function OverdueListing(docs: seq<LoanDoc>, now: int, users: map<Id, User>, books: map<Id, Book>)
    : (r: Reply<seq<OverdueRow>>)
    ensures r.Success? <==> Populated(OverdueReport(docs, now), users, books)
    ensures r.Failure? ==> r == Failure(500, "Error fetching overdue loans")
    ensures r.Success? ==> |r.value| == |OverdueReport(docs, now)|
                           && forall i :: 0 <= i < |r.value| ==> r.value[i] == Row(OverdueReport(docs, now)[i], users, books)
  {
    var report := OverdueReport(docs, now);
    if Populated(report, users, books) then
      Success(200, seq(|report|, i requires 0 <= i < |report| => Row(report[i], users, books)))
    else Failure(500, "Error fetching overdue loans")
  }

  datatype HistoryRow = HistoryRow(id: Id, book: Id, title: string, author: string, loan: Loan)

  /** The JavaScript error of reading `_id` from the `null` a failed `populate` leaves. */
  const NullBookError: string := "Cannot read properties of null (reading '_id')"

  function History(d: LoanDoc, books: map<Id, Book>): (row: HistoryRow)
    requires d.loan.book in books
    ensures row.id == d.id && row.loan == d.loan && row.book == d.loan.book
    ensures row.title == books[d.loan.book].title && row.author == books[d.loan.book].author
  {
    HistoryRow(d.id, d.loan.book, books[d.loan.book].title, books[d.loan.book].author, d.loan)
  }

  /** Every listed loan's book exists, so `populate` finds it. */
  predicate BooksPopulated(docs: seq<LoanDoc>, books: map<Id, Book>)
  {
    forall i :: 0 <= i < |docs| ==> docs[i].loan.book in books
  }

  /**
   * `getUserLoans`: the user's loans, newest issue date first, each with its populated book; a loan
   * whose book is missing makes the request fail with 500 and the JavaScript error's message.
   */
  function UserLoanHistory(docs: seq<LoanDoc>, user: Id, books: map<Id, Book>): (r: Reply<seq<HistoryRow>>)
    ensures r.Success? <==> BooksPopulated(UserLoans(docs, user), books)
    ensures r.Failure? ==> r == Failure(500, NullBookError)
    ensures r.Success? ==> |r.value| == |UserLoans(docs, user)|
                           && forall i :: 0 <= i < |r.value| ==> r.value[i] == History(UserLoans(docs, user)[i], books)
  {
    var mine := UserLoans(docs, user);
    if BooksPopulated(mine, books) then
      Success(200, seq(|mine|, i requires 0 <= i < |mine| => History(mine[i], books)))
    else Failure(500, NullBookError)
  }

  /** The history is newest first and holds only the user's own loans. */
  lemma HistoryIsUsersNewestFirst(docs: seq<LoanDoc>, user: Id, books: map<Id, Book>)
    requires UserLoanHistory(docs, user, books).Success?
    ensures var rows := UserLoanHistory(docs, user, books).value;
            && (forall i, j :: 0 <= i < j < |rows| ==> rows[i].loan.issueDate >= rows[j].loan.issueDate)
            && (forall i :: 0 <= i < |rows| ==> rows[i].loan.user == user)
  {
    var mine := UserLoans(docs, user);
    forall i | 0 <= i < |mine| ensures mine[i].loan.user == user {
      assert mine[i] in multiset(mine);
    }
  }
}
