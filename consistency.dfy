/**
 * The cross-collection invariant the loan workflows are meant to keep: for every book, its
 * available copies plus the loans of it that are not RETURNED equal its total copies. Each
 * workflow's effect on the two collections is checked against it here.
 */
module Consistency {
  import opened Records
  import opened LoanMachine

  /** The ids of the loans of `book` that are still out (ACTIVE or OVERDUE). */
  function Outstanding(loans: map<Id, Loan>, book: Id): set<Id>
  {
    set id | id in loans && loans[id].book == book && loans[id].status != Returned
  }

  predicate Out(l: Loan, book: Id)
  {
    l.book == book && l.status != Returned
  }

  /** `availableCopies + outstanding loans == copies` for every book. */
  predicate Conserved(books: map<Id, Book>, loans: map<Id, Loan>)
  {
    forall b :: b in books ==> books[b].availableCopies + |Outstanding(loans, b)| == books[b].copies
  }

  /** Under the invariant no book lends more than it has. */
  lemma ConservedCapsAvailability(books: map<Id, Book>, loans: map<Id, Loan>, b: Id)
    requires Conserved(books, loans) && b in books
    ensures books[b].availableCopies <= books[b].copies
    ensures books[b].availableCopies == books[b].copies <==> Outstanding(loans, b) == {}
  {
  }

  /** Writing loan `id` changes the outstanding set of `book` by that one id at most. */
  lemma {:induction false} OutstandingAfterWrite(loans: map<Id, Loan>, id: Id, l: Loan, book: Id)
    ensures Outstanding(loans[id := l], book)
            == (Outstanding(loans, book) - {id}) + (if Out(l, book) then {id} else {})
  {
    var after := Outstanding(loans[id := l], book);
    var wanted := (Outstanding(loans, book) - {id}) + (if Out(l, book) then {id} else {});
    forall x ensures x in after <==> x in wanted {
      if x == id {
        assert x in after <==> Out(l, book);
      } else {
        assert x in after <==> x in loans && Out(loans[x], book);
      }
    }
  }

  lemma {:induction false} OutstandingSize(loans: map<Id, Loan>, id: Id, l: Loan, book: Id)
    ensures |Outstanding(loans[id := l], book)|
            == |Outstanding(loans, book)|
               - (if id in loans && Out(loans[id], book) then 1 else 0) + (if Out(l, book) then 1 else 0)
  {
    OutstandingAfterWrite(loans, id, l, book);
    var s := Outstanding(loans, book);
    var rest := s - {id};
    if id in loans && Out(loans[id], book) {
      assert id in s;
      assert |rest| == |s| - 1;
    } else {
      assert id !in s;
      assert rest == s;
    }
    if Out(l, book) {
      assert id !in rest;
      assert |rest + {id}| == |rest| + 1;
    } else {
      assert rest + {} == rest;
    }
  }

  /**
   * The effect of a write on the invariant: writing loan `id` and moving every book's availability
   * by `delta` keeps the books conserved exactly when `delta` makes up for the change in that
   * book's outstanding loans.
   */
  lemma {:induction false} ConservedAfterWrite(books: map<Id, Book>, loans: map<Id, Loan>, id: Id, l: Loan,
                                               b: Id, delta: int)
    requires Conserved(books, loans) && b in books
    requires id in loans ==> loans[id].book == b || !Out(loans[id], loans[id].book)
    requires l.book == b || !Out(l, l.book)
    ensures var out := (if id in loans && Out(loans[id], b) then 1 else 0) - (if Out(l, b) then 1 else 0);
            Conserved(books[b := books[b].(availableCopies := books[b].availableCopies + delta)], loans[id := l])
            <==> delta == out
  {
    var books' := books[b := books[b].(availableCopies := books[b].availableCopies + delta)];
    var loans' := loans[id := l];
    var out := (if id in loans && Out(loans[id], b) then 1 else 0) - (if Out(l, b) then 1 else 0);
    OutstandingSize(loans, id, l, b);
    forall c | c in books && c != b
      ensures |Outstanding(loans', c)| == |Outstanding(loans, c)|
    {
      OutstandingSize(loans, id, l, c);
    }
    if delta == out {
      forall c | c in books'
        ensures books'[c].availableCopies + |Outstanding(loans', c)| == books'[c].copies
      {
      }
    } else {
      assert books'[b].availableCopies + |Outstanding(loans', b)| != books'[b].copies;
    }
  }

  /** Issuing a new ACTIVE loan of an existing book keeps the invariant exactly when the book loses one copy. */
  lemma ConservedAfterLoan(books: map<Id, Book>, loans: map<Id, Loan>, id: Id, l: Loan)
    requires Conserved(books, loans) && id !in loans && l.book in books && l.status == Active
    ensures Conserved(books[l.book := books[l.book].(availableCopies := books[l.book].availableCopies - 1)],
                      loans[id := l])
  {
    ConservedAfterWrite(books, loans, id, l, l.book, -1);
  }

  /** Returning a loan that is still out keeps the invariant when its book gains one copy. */
  lemma ConservedAfterReturn(books: map<Id, Book>, loans: map<Id, Loan>, id: Id, now: int)
    requires Conserved(books, loans) && id in loans && loans[id].status != Returned && loans[id].book in books
    ensures var b := loans[id].book;
            Conserved(books[b := books[b].(availableCopies := books[b].availableCopies + 1)],
                      loans[id := MarkReturned(loans[id], now)])
  {
    ConservedAfterWrite(books, loans, id, MarkReturned(loans[id], now), loans[id].book, 1);
  }

  /** Returning an already RETURNED loan again and crediting its book breaks the invariant. */
  lemma DoubleReturnBreaksInvariant(books: map<Id, Book>, loans: map<Id, Loan>, id: Id, now: int)
    requires Conserved(books, loans) && id in loans && loans[id].status == Returned && loans[id].book in books
    ensures var b := loans[id].book;
            !Conserved(books[b := books[b].(availableCopies := books[b].availableCopies + 1)],
                       loans[id := MarkReturned(loans[id], now)])
  {
    ConservedAfterWrite(books, loans, id, MarkReturned(loans[id], now), loans[id].book, 1);
  }

  /** A loan write that leaves book and "outness" alone (an extension, a due-date change) keeps the invariant. */
  lemma ConservedAfterInPlaceUpdate(books: map<Id, Book>, loans: map<Id, Loan>, id: Id, l: Loan)
    requires Conserved(books, loans) && id in loans
    requires l.book == loans[id].book && (l.status == Returned <==> loans[id].status == Returned)
    ensures Conserved(books, loans[id := l])
  {
    var loans' := loans[id := l];
    forall c | c in books
      ensures books[c].availableCopies + |Outstanding(loans', c)| == books[c].copies
    {
      OutstandingSize(loans, id, l, c);
    }
  }

  /** An extension keeps the invariant. */
  lemma ConservedAfterExtend(books: map<Id, Book>, loans: map<Id, Loan>, id: Id, days: int)
    requires Conserved(books, loans) && id in loans && Extend(loans[id], days).Extended?
    ensures Conserved(books, loans[id := Extend(loans[id], days).loan])
  {
    ConservedAfterInPlaceUpdate(books, loans, id, Extend(loans[id], days).loan);
  }

  /**
   * A due-date update keeps the invariant unless it turns a RETURNED loan of a listed book OVERDUE:
   * that puts the loan back among the outstanding ones without taking a copy.
   */
  lemma ConservedAfterUpdateDue(books: map<Id, Book>, loans: map<Id, Loan>, id: Id, newDue: int, now: int)
    requires Conserved(books, loans) && id in loans
    ensures var revives := loans[id].status == Returned && newDue < now && loans[id].book in books;
            Conserved(books, loans[id := UpdateDue(loans[id], newDue, now)]) <==> !revives
  {
    var l := UpdateDue(loans[id], newDue, now);
    if loans[id].status == Returned && newDue < now {
      var b := loans[id].book;
      if b in books {
        OutstandingSize(loans, id, l, b);
        assert books[b].availableCopies + |Outstanding(loans[id := l], b)| != books[b].copies;
      } else {
        forall c | c in books
          ensures books[c].availableCopies + |Outstanding(loans[id := l], c)| == books[c].copies
        {
          OutstandingSize(loans, id, l, c);
        }
      }
    } else {
      ConservedAfterInPlaceUpdate(books, loans, id, l);
    }
  }

  /** A new book with no loans of it joins conserved when its available copies equal its copies. */
  lemma ConservedAfterNewBook(books: map<Id, Book>, loans: map<Id, Loan>, id: Id, b: Book)
    requires Conserved(books, loans) && id !in books
    requires forall x :: x in loans ==> loans[x].book != id
    ensures Conserved(books[id := b], loans) <==> b.availableCopies == b.copies
  {
    assert Outstanding(loans, id) == {};
  }

  /** Moving a listed book's available copies while the loans stay as they were breaks the invariant. */
  lemma LoneAvailabilityChangeBreaks(books: map<Id, Book>, loans: map<Id, Loan>, b: Id, delta: int)
    requires Conserved(books, loans) && b in books && delta != 0
    ensures !Conserved(books[b := books[b].(availableCopies := books[b].availableCopies + delta)], loans)
  {
    var books' := books[b := books[b].(availableCopies := books[b].availableCopies + delta)];
    assert books'[b].availableCopies + |Outstanding(loans, b)| != books'[b].copies;
  }

  /** Writing a loan while the books stay as they were breaks the invariant when it moves the loan in or out. */
  lemma LoneLoanChangeBreaks(books: map<Id, Book>, loans: map<Id, Loan>, id: Id, l: Loan)
    requires Conserved(books, loans) && id in loans && l.book == loans[id].book && l.book in books
    requires (l.status == Returned) != (loans[id].status == Returned)
    ensures !Conserved(books, loans[id := l])
  {
    OutstandingSize(loans, id, l, l.book);
  }
}
