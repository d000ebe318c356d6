/**
 * The book service's controller: the book table's create/update/delete, book lookup, the
 * availability counter in its three forms (the internal decrease/increase, their timed endpoints,
 * and the guarded `PATCH /books/:id/availability`), the stock totals and the pagination of the
 * book listing.
 */
module BookController {
  import opened Outcomes
  import opened Records
  import opened Sequences
  import opened BookRules

  /** The response shape of the book endpoints: the numbers are sent as `copies` and `available_copies`. */
  function FormatBook(id: Id, b: Book): (j: BookJson)
    ensures j.id == id && j.title == b.title && j.author == b.author
    ensures "copies" in j.numbers && j.numbers["copies"] == b.copies
    ensures "available_copies" in j.numbers && j.numbers["available_copies"] == b.availableCopies
    ensures "availableCopies" !in j.numbers
  {
    BookJson(id, b.title, b.author, map["copies" := b.copies, "available_copies" := b.availableCopies])
  }

  // ------------------------------------------------------------------ the book table

  /** `createBook`; `id` is the ObjectId the new document gets. */
  method CreateBook(books: BookTable, id: Id, title: string, author: string, isbn: string, copies: int)
    returns (r: Reply<BookJson>)
    requires id !in books.rows
    modifies books
    ensures IsbnInUse(old(books.rows), isbn)
            ==> r == Failure(400, "Book with this ISBN already exists") && books.rows == old(books.rows)
    ensures !IsbnInUse(old(books.rows), isbn)
            ==> books.rows == old(books.rows)[id := NewBook(title, author, isbn, copies)]
                && r == Success(201, FormatBook(id, NewBook(title, author, isbn, copies)))
    ensures old(StockValid(books.rows)) && copies >= 0 ==> StockValid(books.rows)
  {
    if IsbnInUse(books.rows, isbn) {
      return Failure(400, "Book with this ISBN already exists");
    }
    var book := NewBook(title, author, isbn, copies);
    books.rows := books.rows[id := book];
    r := Success(201, FormatBook(id, book));
  }

  /** `getBookById`: the formatted book, or 404. */
  function GetBookById(rows: map<Id, Book>, id: Id): (r: Reply<BookJson>)
    ensures r.Success? <==> id in rows
    ensures r.Success? ==> r.status == 200 && r.value == FormatBook(id, rows[id])
    ensures r.Failure? ==> r == Failure(404, "Book not found")
  {
    if id in rows then Success(200, FormatBook(id, rows[id])) else Failure(404, "Book not found")
  }

  /**
   * `updateBook`: 404 for an unknown id; otherwise the fields are assigned one by one, and a refusal
   * (an ISBN in use, too many available copies) returns 400 before the save, so nothing is stored.
   */
  method UpdateBook(books: BookTable, id: Id, p: BookPatch) returns (r: Reply<BookJson>)
    modifies books
    ensures id !in old(books.rows) ==> r == Failure(404, "Book not found") && books.rows == old(books.rows)
    ensures id in old(books.rows) && UpdateRefusal(old(books.rows), old(books.rows)[id], p).Some?
            ==> r == Failure(400, UpdateMessage(UpdateRefusal(old(books.rows), old(books.rows)[id], p).value))
                && books.rows == old(books.rows)
    ensures id in old(books.rows) && UpdateRefusal(old(books.rows), old(books.rows)[id], p).None?
            ==> books.rows == old(books.rows)[id := Patched(old(books.rows)[id], p)]
                && r == Success(200, FormatBook(id, Patched(old(books.rows)[id], p)))
  {
    if id !in books.rows {
      return Failure(404, "Book not found");
    }
    var b := books.rows[id];
    ghost var original := b;
    ghost var target := Patched(original, p);
    if Truthy(p.isbn) && p.isbn.value != b.isbn && IsbnInUse(books.rows, p.isbn.value) {
      return Failure(400, "ISBN already in use");
    }
    assert UpdateRefusal(books.rows, original, p) != Some(IsbnTaken);
    b := AssignFields(b, p);
    if p.availableCopies.Some? {
      if p.availableCopies.value > b.copies {
        assert UpdateRefusal(books.rows, original, p) == Some(AvailableExceedsCopies);
        return Failure(400, "Available copies cannot exceed total copies");
      }
      b := b.(availableCopies := p.availableCopies.value);
    }
    assert b == target;
    books.rows := books.rows[id := b];
    r := Success(200, FormatBook(id, b));
  }

  /** The assignments of `updateBook` before the copies check: each truthy string, and each supplied count. */
  method AssignFields(b: Book, p: BookPatch) returns (r: Book)
    ensures r == Patched(b, p).(availableCopies := b.availableCopies)
  {
    r := b;
    if Truthy(p.title) {
      r := r.(title := p.title.value);
    }
    if Truthy(p.author) {
      r := r.(author := p.author.value);
    }
    if Truthy(p.isbn) {
      r := r.(isbn := p.isbn.value);
    }
    if p.copies.Some? {
      r := r.(copies := p.copies.value);
    }
  }

  /** `deleteBook`: removes the book only when every copy is in; the success status is 201. */
  method DeleteBook(books: BookTable, id: Id) returns (r: Reply<string>)
    modifies books
    ensures id !in old(books.rows) ==> r == Failure(404, "Book not found") && books.rows == old(books.rows)
    ensures id in old(books.rows) && !Deletable(old(books.rows)[id])
            ==> r == Failure(400, "Cannot delete book with active loans") && books.rows == old(books.rows)
    ensures id in old(books.rows) && Deletable(old(books.rows)[id])
            ==> r == Success(201, "Book deleted successfully") && books.rows == old(books.rows) - {id}
  {
    if id !in books.rows {
      return Failure(404, "Book not found");
    }
    if books.rows[id].copies != books.rows[id].availableCopies {
      return Failure(400, "Cannot delete book with active loans");
    }
    books.rows := books.rows - {id};
    r := Success(201, "Book deleted successfully");
  }

  // ------------------------------------------------------- the internal availability operations

  /**
   * `decreaseBookAvailability`: throws for an unknown book or one with no available copy, otherwise
   * takes one copy. Every error message carries the prefix "Error updating book availability: ".
   */
  method DecreaseBookAvailability(books: BookTable, id: Id) returns (r: Settled<Book>)
    modifies books
    ensures id !in old(books.rows)
            ==> r == Rejected("Error updating book availability: Book not found") && books.rows == old(books.rows)
    ensures id in old(books.rows) && old(books.rows)[id].availableCopies <= 0
            ==> r == Rejected("Error updating book availability: Book is not available for loan")
                && books.rows == old(books.rows)
    ensures id in old(books.rows) && old(books.rows)[id].availableCopies > 0
            ==> books.rows == old(books.rows)[id := old(books.rows)[id].(availableCopies := old(books.rows)[id].availableCopies - 1)]
                && r == Fulfilled(books.rows[id])
    ensures old(StockValid(books.rows)) ==> StockValid(books.rows)
  {
    if id !in books.rows {
      return Rejected("Error updating book availability: Book not found");
    }
    var b := books.rows[id];
    if b.availableCopies <= 0 {
      return Rejected("Error updating book availability: Book is not available for loan");
    }
    b := b.(availableCopies := b.availableCopies - 1);
    books.rows := books.rows[id := b];
    r := Fulfilled(b);
  }

  /**
   * `increaseBookAvailability`: throws for an unknown book, otherwise adds one copy with no upper
   * bound, so a book with every copy in ends up with more available copies than copies.
   */
  method IncreaseBookAvailability(books: BookTable, id: Id) returns (r: Settled<Book>)
    modifies books
    ensures id !in old(books.rows)
            ==> r == Rejected("Error updating book availability: Book not found") && books.rows == old(books.rows)
    ensures id in old(books.rows)
            ==> books.rows == old(books.rows)[id := old(books.rows)[id].(availableCopies := old(books.rows)[id].availableCopies + 1)]
                && r == Fulfilled(books.rows[id])
    ensures id in old(books.rows) && old(books.rows)[id].availableCopies >= old(books.rows)[id].copies
            ==> !StockValid(books.rows)
  {
    if id !in books.rows {
      return Rejected("Error updating book availability: Book not found");
    }
    var b := books.rows[id];
    b := b.(availableCopies := b.availableCopies + 1);
    books.rows := books.rows[id := b];
    r := Fulfilled(b);
    if b.availableCopies > b.copies {
      assert !InStock(books.rows[id]);
    }
  }

  // -------------------------------------------------------------- the timed endpoints

  /** `AVAILABILITY_OPERATION_TIMEOUT` and `DB_SAVE_TIMEOUT` when unset. */
  const OperationTimeoutMs: nat := 3000

  const TimedOut: string := "Operation timed out"
  const SaveTimedOut: string := "Save operation timed out"
  const Unavailable: string := "Service temporarily unavailable, please try again later"

  /**
   * The reply of `decreaseAvailabilityEndpoint` / `increaseAvailabilityEndpoint` when the operation
   * settles after `elapsedMs`: the timer wins at `OperationTimeoutMs` and gives 503; an error of the
   * operation itself is 400 unless its message is exactly the timer's.
   */
  function EndpointReply(id: Id, elapsedMs: nat, outcome: Settled<Book>): (r: Reply<BookJson>)
    ensures elapsedMs >= OperationTimeoutMs ==> r == Failure(503, Unavailable)
    ensures elapsedMs < OperationTimeoutMs && outcome.Fulfilled? ==> r == Success(200, FormatBook(id, outcome.value))
    ensures elapsedMs < OperationTimeoutMs && outcome.Rejected?
            ==> r == Failure(if outcome.message == TimedOut then 503 else 400,
                             if outcome.message == TimedOut then Unavailable else outcome.message)
  {
    if elapsedMs >= OperationTimeoutMs then Failure(503, Unavailable)
    else match outcome
      case Fulfilled(b) => Success(200, FormatBook(id, b))
      case Rejected(m) => if m == TimedOut then Failure(503, Unavailable) else Failure(400, m)
  }

  /** The internal operations' messages all carry their prefix, so an endpoint never mistakes them for the timer. */
  lemma OperationErrorsAreClientErrors(id: Id, elapsedMs: nat, m: string)
    requires elapsedMs < OperationTimeoutMs
    requires m == "Error updating book availability: Book not found"
             || m == "Error updating book availability: Book is not available for loan"
    ensures EndpointReply(id, elapsedMs, Rejected(m)) == Failure(400, m)
  {
    assert |m| != |TimedOut|;
  }

  /**
   * `decreaseAvailabilityEndpoint`: the decrease is raced against the timer but not cancelled, so
   * its change to the table happens whether or not the caller gets a 503.
   */
  method DecreaseAvailabilityEndpoint(books: BookTable, id: Id, elapsedMs: nat) returns (r: Reply<BookJson>)
    modifies books
    ensures id in old(books.rows) && old(books.rows)[id].availableCopies > 0
            ==> books.rows == old(books.rows)[id := old(books.rows)[id].(availableCopies := old(books.rows)[id].availableCopies - 1)]
                && r == EndpointReply(id, elapsedMs, Fulfilled(books.rows[id]))
    ensures !(id in old(books.rows) && old(books.rows)[id].availableCopies > 0)
            ==> books.rows == old(books.rows) && r.Failure? && r.status == (if elapsedMs >= OperationTimeoutMs then 503 else 400)
  {
    var outcome := DecreaseBookAvailability(books, id);
    if outcome.Rejected? && elapsedMs < OperationTimeoutMs {
      OperationErrorsAreClientErrors(id, elapsedMs, outcome.message);
    }
    r := EndpointReply(id, elapsedMs, outcome);
  }

  /** `increaseAvailabilityEndpoint`, the same race around the unbounded increase. */
  method IncreaseAvailabilityEndpoint(books: BookTable, id: Id, elapsedMs: nat) returns (r: Reply<BookJson>)
    modifies books
    ensures id in old(books.rows)
            ==> books.rows == old(books.rows)[id := old(books.rows)[id].(availableCopies := old(books.rows)[id].availableCopies + 1)]
                && r == EndpointReply(id, elapsedMs, Fulfilled(books.rows[id]))
    ensures id !in old(books.rows)
            ==> books.rows == old(books.rows) && r.Failure? && r.status == (if elapsedMs >= OperationTimeoutMs then 503 else 400)
  {
    var outcome := IncreaseBookAvailability(books, id);
    if outcome.Rejected? && elapsedMs < OperationTimeoutMs {
      OperationErrorsAreClientErrors(id, elapsedMs, outcome.message);
    }
    r := EndpointReply(id, elapsedMs, outcome);
  }

  // ----------------------------------------------- PATCH /books/:id/availability

  datatype Operation = Increment | Decrement

  function ParseOperation(operation: string): (r: Option<Operation>)
    ensures r == Some(Increment) <==> operation == "increment"
    ensures r == Some(Decrement) <==> operation == "decrement"
  {
    if operation == "increment" then Some(Increment)
    else if operation == "decrement" then Some(Decrement)
    else None
  }

  /**
   * The guarded step of `updateBookAvailability`: an unknown book is 404, an operation other than
   * "increment"/"decrement" is 400, an increment of a book with every copy in and a decrement of a
   * book with none are 400; otherwise the available copies move by exactly one, staying in stock.
   */
  function PlanAvailability(rows: map<Id, Book>, id: Id, operation: string): (r: Reply<Book>)
    ensures r.Success? <==> id in rows && ((operation == "increment" && rows[id].availableCopies < rows[id].copies)
                                        || (operation == "decrement" && rows[id].availableCopies > 0))
    ensures r.Success? ==> r.value == rows[id].(availableCopies := rows[id].availableCopies
                                                 + (if operation == "increment" then 1 else -1))
    ensures r.Success? && InStock(rows[id]) ==> InStock(r.value)
    ensures r.Failure? ==> r.status == (if id in rows then 400 else 404)
  {
    if id !in rows then Failure(404, "Book not found")
    else
      var b := rows[id];
      match ParseOperation(operation)
      case Some(Increment) =>
        if b.availableCopies >= b.copies then Failure(400, "Available copies cannot exceed total copies")
        else Success(200, b.(availableCopies := b.availableCopies + 1))
      case Some(Decrement) =>
        if b.availableCopies <= 0 then Failure(400, "No available copies to decrease")
        else Success(200, b.(availableCopies := b.availableCopies - 1))
      case None => Failure(400, "Either operation or available_copies must be provided")
  }

  /**
   * One database call raced against its timer: it finished in time, or the timer fired first (the
   * call is not cancelled: `lands` says whether its write still happens), or it failed.
   */
  datatype DbStep = Done | Late(lands: bool) | Fails(message: string)

  /** The handler's catch: a message containing "timed out" is 503, any other 500. */
  function CaughtError<T>(message: string): (r: Reply<T>)
    ensures r.Failure?
    ensures Contains(message, "timed out") ==> r == Failure(503, Unavailable)
    ensures !Contains(message, "timed out") ==> r == Failure(500, message)
  {
    if Contains(message, "timed out") then Failure(503, Unavailable) else Failure(500, message)
  }

  /** Both timers' messages are caught as 503. */
  lemma TimersAreUnavailable<T>()
    ensures CaughtError<T>(TimedOut) == Failure(503, Unavailable)
    ensures CaughtError<T>(SaveTimedOut) == Failure(503, Unavailable)
  {
    assert OccursAt(TimedOut, "timed out", 10);
    assert OccursAt(SaveTimedOut, "timed out", 15);
  }

  /** The simplified body of a successful availability update. */
  datatype AvailabilityJson = AvailabilityJson(id: Id, availableCopies: int)

  /**
   * `updateBookAvailability`: the find and the save are each raced against a timer. A late find
   * changes nothing; a late save is 503 to the caller even when its write lands. Whatever happens,
   * every book stays within `0 <= availableCopies <= copies`.
   */
  method UpdateBookAvailability(books: BookTable, id: Id, operation: string, find: DbStep, save: DbStep)
    returns (r: Reply<AvailabilityJson>)
    modifies books
    ensures find.Late? ==> r == Failure(503, Unavailable) && books.rows == old(books.rows)
    ensures find.Fails? ==> r == CaughtError(find.message) && books.rows == old(books.rows)
    ensures find.Done? && PlanAvailability(old(books.rows), id, operation).Failure?
            ==> r == Failure(PlanAvailability(old(books.rows), id, operation).status,
                             PlanAvailability(old(books.rows), id, operation).message)
                && books.rows == old(books.rows)
    ensures find.Done? && PlanAvailability(old(books.rows), id, operation).Success?
            ==> var b := PlanAvailability(old(books.rows), id, operation).value;
                && (save.Done? ==> r == Success(200, AvailabilityJson(id, b.availableCopies))
                                   && books.rows == old(books.rows)[id := b])
                && (save.Late? ==> r == Failure(503, Unavailable)
                                   && books.rows == if save.lands then old(books.rows)[id := b] else old(books.rows))
                && (save.Fails? ==> r == CaughtError(save.message) && books.rows == old(books.rows))
    ensures old(StockValid(books.rows)) ==> StockValid(books.rows)
  {
    match find {
      case Late(_) =>
        TimersAreUnavailable<AvailabilityJson>();
        return CaughtError(TimedOut);
      case Fails(m) =>
        return CaughtError(m);
      case Done =>
    }
    var plan := PlanAvailability(books.rows, id, operation);
    if plan.Failure? {
      return Failure(plan.status, plan.message);
    }
    var b := plan.value;
    match save {
      case Done =>
        books.rows := books.rows[id := b];
        r := Success(200, AvailabilityJson(id, b.availableCopies));
      case Late(lands) =>
        if lands {
          books.rows := books.rows[id := b];
        }
        TimersAreUnavailable<AvailabilityJson>();
        r := CaughtError(SaveTimedOut);
      case Fails(m) =>
        r := CaughtError(m);
    }
  }

  // -------------------------------------------------------------------- read side

  datatype Totals = Totals(total: int, available: int)

  function SumCopies(bs: seq<Book>): int
  {
    if bs == [] then 0 else bs[0].copies + SumCopies(bs[1..])
  }

  function SumAvailable(bs: seq<Book>): int
  {
    if bs == [] then 0 else bs[0].availableCopies + SumAvailable(bs[1..])
  }

  /**
   * `getBookStats`: the `$group` sums over every book, or `{ total: 0, available: 0 }` when the
   * aggregate has no row (no books); that default agrees with the empty sums.
   */
  function GetBookStats(bs: seq<Book>): (t: Totals)
    ensures t == Totals(SumCopies(bs), SumAvailable(bs))
    ensures bs == [] ==> t == Totals(0, 0)
  {
    if bs == [] then Totals(0, 0) else Totals(SumCopies(bs), SumAvailable(bs))
  }

  /** When every book is in stock, the totals satisfy the same bound. */
  lemma {:induction false} StatsInStock(bs: seq<Book>)
    requires forall i :: 0 <= i < |bs| ==> InStock(bs[i])
    ensures 0 <= GetBookStats(bs).available <= GetBookStats(bs).total
  {
    if bs != [] {
      StatsInStock(bs[1..]);
    }
  }

  /** `skip = (pageNum - 1) * limit`. */
  function Skip(page: int, perPage: int): int
  {
    (page - 1) * perPage
  }

  /**
   * `.skip(skip).limit(limit)`: a negative skip is refused by the database; a limit of 0 means no
   * limit and a negative limit counts by its absolute value.
   */
  function Paginate<T>(docs: seq<T>, page: int, perPage: int): (r: Option<seq<T>>)
    ensures r.None? <==> Skip(page, perPage) < 0
    ensures r.Some? && perPage != 0 ==> |r.value| <= if perPage < 0 then -perPage else perPage
    ensures r.Some? && perPage == 0 ==> r.value == docs[Min(Skip(page, perPage), |docs|)..]
    ensures r.Some? && perPage > 0
            ==> r.value == docs[Min(Skip(page, perPage), |docs|)..Min(Skip(page, perPage) + perPage, |docs|)]
    ensures r.Some? ==> multiset(r.value) <= multiset(docs)
  {
    var skip := Skip(page, perPage);
    if skip < 0 then None
    else
      var from := Min(skip, |docs|);
      var count := if perPage == 0 then |docs| else if perPage < 0 then -perPage else perPage;
      var to := Min(from + count, |docs|);
      assert docs == docs[..from] + docs[from..to] + docs[to..];
      Some(docs[from..to])
  }

  /** The first `n` pages of a positive page size, joined. */
  function FirstPages<T>(docs: seq<T>, perPage: nat, n: nat): seq<T>
    requires perPage > 0
  {
    if n == 0 then [] else FirstPages(docs, perPage, n - 1) + Paginate(docs, n, perPage).value
  }

  /** Pages 1, 2, ... of a positive page size are consecutive slices: together they cover the listing in order. */
  lemma {:induction false} PagesTile<T>(docs: seq<T>, perPage: nat, n: nat)
    requires perPage > 0
    ensures FirstPages(docs, perPage, n) == docs[..Min(n * perPage, |docs|)]
  {
    if n > 0 {
      PagesTile(docs, perPage, n - 1);
      var a := Min((n - 1) * perPage, |docs|);
      var b := Min(n * perPage, |docs|);
      assert Skip(n, perPage) == (n - 1) * perPage;
      assert (n - 1) * perPage + perPage == n * perPage;
      assert Paginate(docs, n, perPage).value == docs[a..b];
      assert docs[..a] + docs[a..b] == docs[..b];
    }
  }

  datatype BookPage = BookPage(books: seq<BookJson>, total: nat, page: int, perPage: int)

  /** The books the query selects: with a truthy `search` those `matches` accepts, in order, otherwise all. */
  function Listing(docs: seq<(Id, Book)>, search: Option<string>, matches: (string, Book) -> bool): (found: seq<(Id, Book)>)
    ensures !Truthy(search) ==> found == docs
    ensures Truthy(search) ==> found == Filter(docs, (d: (Id, Book)) => matches(search.value, d.1))
  {
    if Truthy(search) then Filter(docs, (d: (Id, Book)) => matches(search.value, d.1)) else docs
  }

  /**
   * `getBooks`: with a truthy `search` only the books `matches` (the case-insensitive regex on
   * title or author) accepts, otherwise all; `total` counts all the matching books, `books` holds
   * one page of them, each formatted.
   */
  function GetBooks(docs: seq<(Id, Book)>, search: Option<string>, matches: (string, Book) -> bool,
                    page: int, perPage: int): (r: Reply<BookPage>)
    ensures r.Failure? <==> Skip(page, perPage) < 0
    ensures r.Failure? ==> r.status == 500
    ensures r.Success? && !Truthy(search) ==> r.value.total == |docs|
    ensures r.Success? && Truthy(search) ==> r.value.total == Count(docs, (d: (Id, Book)) => matches(search.value, d.1))
    ensures r.Success? ==> |r.value.books| <= r.value.total && r.value.page == page && r.value.perPage == perPage
    ensures r.Success? ==> var slice := Paginate(Listing(docs, search, matches), page, perPage).value;
                           && |r.value.books| == |slice|
                           && forall i :: 0 <= i < |slice| ==> r.value.books[i] == FormatBook(slice[i].0, slice[i].1)
  {
    var found := Listing(docs, search, matches);
    match Paginate(found, page, perPage)
    case None => Failure(500, "skip value must be non-negative")
    case Some(slice) =>
      assert |slice| <= |found| by {
        assert |multiset(slice)| <= |multiset(found)|;
      }
      Success(200, BookPage(seq(|slice|, i requires 0 <= i < |slice| => FormatBook(slice[i].0, slice[i].1)),
                            |found|, page, perPage))
  }
}
