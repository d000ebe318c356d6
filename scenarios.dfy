/**
 * The lending scenario of one book with one copy, run through both loan controllers: lend it, try
 * to lend it again, return it, lend it again. Then the loan service's unguarded return, repeated
 * on a book with two copies lent.
 */
module Scenarios {
  import opened Outcomes
  import opened Records
  import opened Transport
  import BookController
  import MonolithLoanController
  import LoanController
  import LoanMachine
  import StatBookApi

  const Day: int := MsPerDay

  /** The one reader and the one-copy book of the scenario. */
  const Ada := User("Ada", "ada@example.com", "student")
  const Dune := Book("Dune", "Herbert", "isbn-1", 1, 1)
  const Lent := Dune.(availableCopies := 0)

  /** The loan the monolith records for the first request (its original due date is the due date). */
  const MonolithFirst := NewLoan("u", "b", 14 * Day, Some(14 * Day), 0)

  /**
   * In the monolith: the first loan takes the only copy, the second is refused with 400 "Book is
   * not available for loan", the return puts the copy back and a new loan then succeeds.
   */
  method MonolithOneCopy() returns (first: Reply<Loan>, second: Reply<Loan>, returned: Reply<Loan>, third: Reply<Loan>,
                                    availableAfter: seq<int>)
    ensures first.Success? && first.value.status == Active
    ensures second == Failure(400, "Book is not available for loan")
    ensures returned.Success? && returned.value.status == Returned
    ensures third.Success?
    ensures availableAfter == [0, 0, 1, 0]
  {
    var users := new UserTable(map["u" := Ada]);
    var books := new BookTable(map["b" := Dune]);
    var loans := new LoanTable(map[]);
    var lending, returning;
    first, second, lending := MonolithLendTwice(users, books, loans);
    returned, third, returning := MonolithReturnAndLend(users, books, loans);
    availableAfter := lending + returning;
  }

  /** The first two requests in the monolith: the copy is taken, then the second request is refused. */
  method MonolithLendTwice(users: UserTable, books: BookTable, loans: LoanTable)
    returns (first: Reply<Loan>, second: Reply<Loan>, availableAfter: seq<int>)
    requires users.rows == map["u" := Ada] && books.rows == map["b" := Dune] && loans.rows == map[]
    modifies books, loans
    ensures first == Success(201, MonolithFirst) && first.value.status == Active
    ensures second == Failure(400, "Book is not available for loan")
    ensures availableAfter == [0, 0]
    ensures books.rows == map["b" := Lent] && loans.rows == map["l1" := MonolithFirst]
  {
    first := MonolithLoanController.CreateLoan(users, books, loans, "l1", "u", "b", 14 * Day, 0, None, None);
    assert books.rows == map["b" := Lent] && loans.rows == map["l1" := MonolithFirst];
    availableAfter := [books.rows["b"].availableCopies];
    second := MonolithLoanController.CreateLoan(users, books, loans, "l2", "u", "b", 14 * Day, Day, None, None);
    availableAfter := availableAfter + [books.rows["b"].availableCopies];
  }

  /** The return in the monolith puts the copy back, and the next request takes it again. */
  method MonolithReturnAndLend(users: UserTable, books: BookTable, loans: LoanTable)
    returns (returned: Reply<Loan>, third: Reply<Loan>, availableAfter: seq<int>)
    requires users.rows == map["u" := Ada] && books.rows == map["b" := Lent] && loans.rows == map["l1" := MonolithFirst]
    modifies books, loans
    ensures returned == Success(200, LoanMachine.MarkReturned(MonolithFirst, 2 * Day))
    ensures returned.value.status == Returned
    ensures third.Success?
    ensures availableAfter == [1, 0]
  {
    returned := MonolithLoanController.ReturnBook(books, loans, "l1", 2 * Day);
    assert books.rows == map["b" := Dune] && loans.rows == map["l1" := LoanMachine.MarkReturned(MonolithFirst, 2 * Day)];
    availableAfter := [books.rows["b"].availableCopies];
    assert !MonolithLoanController.HasOverdueLoan(loans.rows, "u");
    third := MonolithLoanController.CreateLoan(users, books, loans, "l3", "u", "b", 17 * Day, 3 * Day, None, None);
    availableAfter := availableAfter + [books.rows["b"].availableCopies];
  }

  /** Every request reaches the book service at once and every database step finishes in time. */
  const Prompt: LoanController.Delivery := LoanController.Reached(10, BookController.Done, BookController.Done)

  /** The loan the loan service records for the first request (it sets no original due date). */
  const ServiceFirst := NewLoan("u", "b", 14 * Day, None, 0)

  /**
   * In the loan service as written, with every remote call answering promptly: the same replies as
   * in the monolith except the second. The availability check as written lets that request
   * through, the book service refuses the decrement, and the caller gets the stat proxy's 500.
   */
  method ServiceOneCopy() returns (first: Reply<Loan>, second: Reply<Loan>, returned: Reply<Loan>, third: Reply<Loan>,
                                   availableAfter: seq<int>)
    ensures first.Success? && first.value.status == Active
    ensures second == Failure(500, StatBookApi.UpdateUnavailable)
    ensures returned.Success? && returned.value.status == Returned
    ensures third.Success?
    ensures availableAfter == [0, 0, 1, 0]
  {
    var books := new BookTable(map["b" := Dune]);
    var loans := new LoanTable(map[]);
    var lending, returning;
    first, second, lending := ServiceLendTwice(books, loans);
    returned, third, returning := ServiceReturnAndLend(books, loans);
    availableAfter := lending + returning;
  }

  /**
   * The first two requests in the loan service as written: the copy is taken, then the second
   * request fails with 500 at the refused decrement and changes nothing.
   */
  method ServiceLendTwice(books: BookTable, loans: LoanTable)
    returns (first: Reply<Loan>, second: Reply<Loan>, availableAfter: seq<int>)
    requires books.rows == map["b" := Dune] && loans.rows == map[]
    modifies books, loans
    ensures first == Success(201, ServiceFirst) && first.value.status == Active
    ensures second == Failure(500, StatBookApi.UpdateUnavailable)
    ensures availableAfter == [0, 0]
    ensures books.rows == map["b" := Lent] && loans.rows == map["l1" := ServiceFirst]
  {
    first := LoanController.CreateLoan(loans, books, "l1", "u", "b", 14 * Day, 0, 10, Response(Ada), None, Prompt, None);
    assert books.rows == map["b" := Lent] && loans.rows == map["l1" := ServiceFirst];
    availableAfter := [books.rows["b"].availableCopies];
    second := LoanController.CreateLoan(loans, books, "l2", "u", "b", 14 * Day, Day, 10, Response(Ada), None, Prompt, None);
    availableAfter := availableAfter + [books.rows["b"].availableCopies];
  }

  /** With the corrected check the second request is refused with 400 before any write instead. */
  method ServiceSecondLoanCorrected(books: BookTable, loans: LoanTable) returns (second: Reply<Loan>)
    requires books.rows == map["b" := Lent] && loans.rows == map["l1" := ServiceFirst]
    modifies books, loans
    ensures second == Failure(400, "Book is not available for loan")
    ensures books.rows == map["b" := Lent] && loans.rows == map["l1" := ServiceFirst]
  {
    second := LoanController.CreateLoanCorrected(loans, books, "l2", "u", "b", 14 * Day, Day, 10, Response(Ada), None, Prompt, None);
  }

  /** The return in the loan service puts the copy back, and the next request takes it again. */
  method ServiceReturnAndLend(books: BookTable, loans: LoanTable)
    returns (returned: Reply<Loan>, third: Reply<Loan>, availableAfter: seq<int>)
    requires books.rows == map["b" := Lent] && loans.rows == map["l1" := ServiceFirst]
    modifies books, loans
    ensures returned == Success(200, LoanMachine.MarkReturned(ServiceFirst, 2 * Day))
    ensures returned.value.status == Returned
    ensures third.Success?
    ensures availableAfter == [1, 0]
  {
    returned := LoanController.ReturnBook(loans, books, "l1", 2 * Day, Prompt);
    assert books.rows == map["b" := Dune] && loans.rows == map["l1" := LoanMachine.MarkReturned(ServiceFirst, 2 * Day)];
    availableAfter := [books.rows["b"].availableCopies];
    third := LoanController.CreateLoan(loans, books, "l3", "u", "b", 17 * Day, 3 * Day, 10, Response(Ada), None, Prompt, None);
    availableAfter := availableAfter + [books.rows["b"].availableCopies];
  }

  /**
   * The loan service's return as written, on a two-copy book with both copies lent: returning the
   * first loan twice succeeds both times and frees both copies while the second loan is still out.
   */
  method ServiceDoubleReturn() returns (once: Reply<Loan>, twice: Reply<Loan>, available: int, secondStillOut: bool)
    ensures once.Success? && twice.Success?
    ensures available == 2 && secondStillOut
  {
    var other := NewLoan("v", "b", 14 * Day, None, 0);
    var books := new BookTable(map["b" := Book("Dune", "Herbert", "isbn-1", 2, 0)]);
    var loans := new LoanTable(map["l1" := ServiceFirst, "l2" := other]);
    once := LoanController.ReturnBook(loans, books, "l1", 2 * Day, Prompt);
    assert books.rows == map["b" := Book("Dune", "Herbert", "isbn-1", 2, 1)];
    twice := LoanController.ReturnBook(loans, books, "l1", 3 * Day, Prompt);
    assert loans.rows["l2"] == other;
    available := books.rows["b"].availableCopies;
    secondStillOut := loans.rows["l2"].status != Returned;
  }
}
