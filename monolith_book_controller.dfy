/**
 * The monolith's book controller: the same table rules as the book service, with the document sent
 * as stored (no field renaming), a plain listing without pagination, and 204 for a delete.
 */
module MonolithBookController {
  import opened Outcomes
  import opened Records
  import opened Sequences
  import opened BookRules

  /** `createBook`; `id` is the ObjectId the new document gets. */
  method CreateBook(books: BookTable, id: Id, title: string, author: string, isbn: string, copies: int)
    returns (r: Reply<Book>)
    requires id !in books.rows
    modifies books
    ensures IsbnInUse(old(books.rows), isbn)
            ==> r == Failure(400, "Book with this ISBN already exists") && books.rows == old(books.rows)
    ensures !IsbnInUse(old(books.rows), isbn)
            ==> books.rows == old(books.rows)[id := NewBook(title, author, isbn, copies)]
                && r == Success(201, NewBook(title, author, isbn, copies))
    ensures old(StockValid(books.rows)) && copies >= 0 ==> StockValid(books.rows)
  {
    if IsbnInUse(books.rows, isbn) {
      return Failure(400, "Book with this ISBN already exists");
    }
    var book := NewBook(title, author, isbn, copies);
    books.rows := books.rows[id := book];
    r := Success(201, book);
  }

  /**
   * `getBooks`: with a truthy `search`, the books `matches` (the case-insensitive regex on title or
   * author) accepts, in collection order; otherwise every book.
   */
  function GetBooks(docs: seq<(Id, Book)>, search: Option<string>, matches: (string, Book) -> bool)
    : (r: seq<(Id, Book)>)
    ensures !Truthy(search) ==> r == docs
    ensures Truthy(search) ==> forall d :: multiset(r)[d] == if matches(search.value, d.1) then multiset(docs)[d] else 0
    ensures Truthy(search) ==> |r| == Count(docs, (d: (Id, Book)) => matches(search.value, d.1))
    ensures SubsequenceOf(r, docs)
  {
    if Truthy(search) then Filter(docs, (d: (Id, Book)) => matches(search.value, d.1))
    else SubsequenceOfItself(docs); docs
  }

  /** `getBookById`: the stored book, or 404. */
  function GetBookById(rows: map<Id, Book>, id: Id): (r: Reply<Book>)
    ensures r.Success? <==> id in rows
    ensures r.Success? ==> r == Success(200, rows[id])
    ensures r.Failure? ==> r == Failure(404, "Book not found")
  {
    if id in rows then Success(200, rows[id]) else Failure(404, "Book not found")
  }

  /**
   * `updateBook`: 404 for an unknown id; an ISBN in use or too many available copies is refused with
   * 400 before the save; otherwise the patched book is stored and sent.
   */
  method UpdateBook(books: BookTable, id: Id, p: BookPatch) returns (r: Reply<Book>)
    modifies books
    ensures id !in old(books.rows) ==> r == Failure(404, "Book not found") && books.rows == old(books.rows)
    ensures id in old(books.rows) && UpdateRefusal(old(books.rows), old(books.rows)[id], p).Some?
            ==> r == Failure(400, UpdateMessage(UpdateRefusal(old(books.rows), old(books.rows)[id], p).value))
                && books.rows == old(books.rows)
    ensures id in old(books.rows) && UpdateRefusal(old(books.rows), old(books.rows)[id], p).None?
            ==> books.rows == old(books.rows)[id := Patched(old(books.rows)[id], p)]
                && r == Success(200, Patched(old(books.rows)[id], p))
  {
    if id !in books.rows {
      return Failure(404, "Book not found");
    }
    var b := books.rows[id];
    match UpdateRefusal(books.rows, b, p) {
      case Some(e) =>
        r := Failure(400, UpdateMessage(e));
      case None =>
        var patched := Patched(b, p);
        books.rows := books.rows[id := patched];
        r := Success(200, patched);
    }
  }

  /** `deleteBook`: removes the book only when every copy is in, answering 204 with no body. */
  method DeleteBook(books: BookTable, id: Id) returns (r: Reply<Unit>)
    modifies books
    ensures id !in old(books.rows) ==> r == Failure(404, "Book not found") && books.rows == old(books.rows)
    ensures id in old(books.rows) && !Deletable(old(books.rows)[id])
            ==> r == Failure(400, "Cannot delete book with active loans") && books.rows == old(books.rows)
    ensures id in old(books.rows) && Deletable(old(books.rows)[id])
            ==> r == Success(204, Unit) && books.rows == old(books.rows) - {id}
  {
    if id !in books.rows {
      return Failure(404, "Book not found");
    }
    if !Deletable(books.rows[id]) {
      return Failure(400, "Cannot delete book with active loans");
    }
    books.rows := books.rows - {id};
    r := Success(204, Unit);
  }
}
