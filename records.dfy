/**
 * The persisted records and their collections. The Mongoose schemas (`models/Loan.js`,
 * `models/Book.js`, `models/User.js`) are not part of this model; the defaults they are taken to
 * supply are stated in `NewLoan`. Each collection is an object whose `rows` map a document id to its
 * document; the controllers read and reassign it.
 */
module Records {
  import opened Outcomes

  /** A document id (a MongoDB ObjectId, as its hex string). */
  type Id = string

  /** One day in milliseconds; timestamps are integer milliseconds. */
  const MsPerDay: nat := 86_400_000

  datatype Status = Active | Overdue | Returned

  datatype Loan = Loan(
    user: Id,
    book: Id,
    issueDate: int,
    dueDate: int,
    originalDueDate: Option<int>,
    returnDate: Option<int>,
    status: Status,
    extensionsCount: nat)

  /**
   * `new Loan({ user, book, dueDate, ... })`. Taken as the schema defaults: status ACTIVE,
   * extensionsCount 0, issueDate = the time of creation, no return date.
   */
  function NewLoan(user: Id, book: Id, dueDate: int, originalDueDate: Option<int>, now: int): (l: Loan)
    ensures l.user == user && l.book == book && l.dueDate == dueDate && l.originalDueDate == originalDueDate
    ensures l.status == Active && l.extensionsCount == 0 && l.issueDate == now && l.returnDate == None
    ensures WellFormed(l)
  {
    Loan(user, book, now, dueDate, originalDueDate, None, Active, 0)
  }

  /** The lifecycle invariant of a loan: a return date exactly when returned, at most two extensions. */
  predicate WellFormed(l: Loan)
  {
    (l.returnDate.Some? <==> l.status == Returned) && l.extensionsCount <= 2
  }

  datatype Book = Book(title: string, author: string, isbn: string, copies: int, availableCopies: int)

  /** The availability bound `0 <= availableCopies <= copies`. */
  predicate InStock(b: Book)
  {
    0 <= b.availableCopies <= b.copies
  }

  predicate StockValid(rows: map<Id, Book>)
  {
    forall id :: id in rows ==> InStock(rows[id])
  }

  /** `Book.findOne({ isbn })` finds a document. */
  predicate IsbnInUse(rows: map<Id, Book>, isbn: string)
  {
    exists id | id in rows :: rows[id].isbn == isbn
  }

  datatype User = User(name: string, email: string, role: string)

  /** `User.findOne({ email })` finds a document. */
  predicate EmailInUse(rows: map<Id, User>, email: string)
  {
    exists id | id in rows :: rows[id].email == email
  }

  /** No two users share an email. */
  predicate EmailsUnique(rows: map<Id, User>)
  {
    forall a, b :: a in rows && b in rows && rows[a].email == rows[b].email ==> a == b
  }

  /**
   * The JSON a service sends for a book: its strings, and its numeric members by key, so that a
   * reader asking for a key the writer does not send gets `undefined`.
   */
  datatype BookJson = BookJson(id: Id, title: string, author: string, numbers: map<string, int>)

  class BookTable {
    var rows: map<Id, Book>

    constructor (rows: map<Id, Book>)
      ensures this.rows == rows
    {
      this.rows := rows;
    }
  }

  class UserTable {
    var rows: map<Id, User>

    constructor (rows: map<Id, User>)
      ensures this.rows == rows
    {
      this.rows := rows;
    }
  }

  class LoanTable {
    var rows: map<Id, Loan>

    constructor (rows: map<Id, Loan>)
      ensures this.rows == rows
    {
      this.rows := rows;
    }
  }
}
