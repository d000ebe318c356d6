/**
 * The table rules both book controllers apply identically: a new book starts with every copy
 * available, an update assigns the truthy strings and the supplied counts and refuses an ISBN in use
 * or more available copies than copies, and a book can be deleted only when no copy is out.
 */
module BookRules {
  import opened Outcomes
  import opened Records

  /** `new Book({ title, author, isbn, copies, availableCopies: copies })`. */
  function NewBook(title: string, author: string, isbn: string, copies: int): (b: Book)
    ensures b.availableCopies == b.copies == copies
    ensures b.title == title && b.author == author && b.isbn == isbn
    ensures copies >= 0 ==> InStock(b)
  {
    Book(title, author, isbn, copies, copies)
  }

  /** The fields of an update request; `None` is a field the request does not send. */
  datatype BookPatch = BookPatch(
    title: Option<string>,
    author: Option<string>,
    isbn: Option<string>,
    copies: Option<int>,
    availableCopies: Option<int>)

  /** The field assignments of an update: a string field when truthy, a count when defined. */
  function Patched(b: Book, p: BookPatch): Book
  {
    Book(
      if Truthy(p.title) then p.title.value else b.title,
      if Truthy(p.author) then p.author.value else b.author,
      if Truthy(p.isbn) then p.isbn.value else b.isbn,
      if p.copies.Some? then p.copies.value else b.copies,
      if p.availableCopies.Some? then p.availableCopies.value else b.availableCopies)
  }

  /** The two refusals of an update, in the order the handler checks them. */
  datatype UpdateError = IsbnTaken | AvailableExceedsCopies

  function UpdateMessage(e: UpdateError): string
  {
    match e
    case IsbnTaken => "ISBN already in use"
    case AvailableExceedsCopies => "Available copies cannot exceed total copies"
  }

  /**
   * Why an update of book `b` in `rows` is refused, if it is: a truthy ISBN different from the
   * current one that some book already has, or a supplied `available_copies` above the copies the
   * book will have after the update.
   */
  function UpdateRefusal(rows: map<Id, Book>, b: Book, p: BookPatch): (e: Option<UpdateError>)
    ensures e == Some(IsbnTaken) <==> Truthy(p.isbn) && p.isbn.value != b.isbn && IsbnInUse(rows, p.isbn.value)
    ensures e == Some(AvailableExceedsCopies)
            <==> !(Truthy(p.isbn) && p.isbn.value != b.isbn && IsbnInUse(rows, p.isbn.value))
                 && p.availableCopies.Some? && p.availableCopies.value > Patched(b, p).copies
    ensures e.None? && p.availableCopies.Some? ==> Patched(b, p).availableCopies <= Patched(b, p).copies
  {
    if Truthy(p.isbn) && p.isbn.value != b.isbn && IsbnInUse(rows, p.isbn.value) then Some(IsbnTaken)
    else if p.availableCopies.Some? && p.availableCopies.value > Patched(b, p).copies then Some(AvailableExceedsCopies)
    else None
  }

  /** Counts the validation middleware lets through: absent or non-negative. */
  predicate CountsValidated(p: BookPatch)
  {
    (p.copies.Some? ==> p.copies.value >= 0) && (p.availableCopies.Some? ==> p.availableCopies.value >= 0)
  }

  /**
   * An accepted update of an in-stock book leaves it in stock exactly unless it lowers `copies`
   * below the current available copies without also sending `available_copies`.
   */
  lemma AcceptedUpdateStock(rows: map<Id, Book>, b: Book, p: BookPatch)
    requires InStock(b) && CountsValidated(p) && UpdateRefusal(rows, b, p).None?
    ensures InStock(Patched(b, p))
            <==> !(p.availableCopies.None? && p.copies.Some? && p.copies.value < b.availableCopies)
  {
  }

  /** An update that sends nothing changes nothing. */
  lemma EmptyPatchChangesNothing(rows: map<Id, Book>, b: Book)
    ensures UpdateRefusal(rows, b, BookPatch(None, None, None, None, None)).None?
    ensures Patched(b, BookPatch(None, None, None, None, None)) == b
  {
  }

  /** An empty string never overwrites a field, and an ISBN equal to the current one is never refused. */
  lemma EmptyStringsKeepFields(rows: map<Id, Book>, b: Book, p: BookPatch)
    requires p.title == Some("") && p.author == Some("") && (p.isbn == Some("") || p.isbn == Some(b.isbn))
    ensures Patched(b, p).(copies := b.copies, availableCopies := b.availableCopies) == b
    ensures UpdateRefusal(rows, b, p) != Some(IsbnTaken)
  {
  }

  /** `book.copies !== book.availableCopies` blocks a delete. */
  predicate Deletable(b: Book)
  {
    b.copies == b.availableCopies
  }
}
