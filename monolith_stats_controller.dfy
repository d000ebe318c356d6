/**
 * The monolith's statistics, as aggregation pipelines over the loans: the ten most borrowed books
 * and the ten most active users, each joined with its document (`$lookup` then `$unwind`, which
 * drops a group whose document is missing), and the system overview of counts.
 */
module MonolithStatsController {
  import opened Records
  import opened Sequences
  import opened LoanStats
  import BookController

  /** `$unwind` of a `$lookup`: only the groups whose key has a document stay. */
  function Joined<D>(top: seq<Tally>, docs: map<Id, D>): (r: seq<Tally>)
    ensures forall i :: 0 <= i < |r| ==> r[i].key in docs
    ensures forall t :: multiset(r)[t] == if t.key in docs then multiset(top)[t] else 0
    ensures |r| <= |top|
    ensures SubsequenceOf(r, top)
    ensures (forall i, j :: 0 <= i < j < |top| ==> top[i].total >= top[j].total)
            ==> forall i, j :: 0 <= i < j < |r| ==> r[i].total >= r[j].total
  {
    var r := Filter(top, (t: Tally) => t.key in docs);
    assert |multiset(r)| <= |multiset(top)|;
    if SortedBy(top, MostFirst) then
      FilterKeepsSorted(top, (t: Tally) => t.key in docs, MostFirst); r
    else r
  }

  /**
   * The `n` largest groups whose key has a document, largest first, each with its key's counts:
   * the top `n` groups in their order with those lacking a document left out.
   */
  function JoinedTop<D>(loans: seq<Loan>, g: GroupKey, n: nat, docs: map<Id, D>): (r: seq<Tally>)
    ensures |r| <= n
    ensures forall i :: 0 <= i < |r| ==> r[i].key in docs
    ensures forall i :: 0 <= i < |r| ==> r[i].total == CountKey(loans, g, r[i].key) >= 1
    ensures forall i :: 0 <= i < |r| ==> r[i].active == CountActiveKey(loans, g, r[i].key) <= r[i].total
    ensures forall i, j :: 0 <= i < j < |r| ==> r[i].total >= r[j].total
    ensures forall t :: multiset(r)[t] == if t.key in docs then multiset(TopTallies(loans, g, n))[t] else 0
    ensures SubsequenceOf(r, TopTallies(loans, g, n))
  {
    JoinedGroups(loans, g, TopTallies(loans, g, n), docs)
  }

  /** The join of groups that hold their keys' counts, largest first: still so, with the documented keys only. */
  function JoinedGroups<D>(loans: seq<Loan>, g: GroupKey, top: seq<Tally>, docs: map<Id, D>): (r: seq<Tally>)
    requires forall i :: 0 <= i < |top| ==> top[i].total == CountKey(loans, g, top[i].key) >= 1
    requires forall i :: 0 <= i < |top| ==> top[i].active == CountActiveKey(loans, g, top[i].key)
    requires forall i, j :: 0 <= i < j < |top| ==> top[i].total >= top[j].total
    ensures |r| <= |top|
    ensures forall i :: 0 <= i < |r| ==> r[i].key in docs
    ensures forall i :: 0 <= i < |r| ==> r[i].total == CountKey(loans, g, r[i].key) >= 1
    ensures forall i :: 0 <= i < |r| ==> r[i].active == CountActiveKey(loans, g, r[i].key) <= r[i].total
    ensures forall i, j :: 0 <= i < j < |r| ==> r[i].total >= r[j].total
    ensures forall t :: multiset(r)[t] == if t.key in docs then multiset(top)[t] else 0
    ensures SubsequenceOf(r, top)
  {
    var kept := Joined(top, docs);
    JoinedRows(loans, g, top, kept, docs);
    kept
  }

  /** Each joined group is one of the top groups, so it still holds its key's counts. */
  lemma {:induction false} JoinedRows<D>(loans: seq<Loan>, g: GroupKey, top: seq<Tally>, kept: seq<Tally>, docs: map<Id, D>)
    requires forall i :: 0 <= i < |top| ==> top[i].total == CountKey(loans, g, top[i].key) >= 1
    requires forall i :: 0 <= i < |top| ==> top[i].active == CountActiveKey(loans, g, top[i].key)
    requires forall t :: multiset(kept)[t] == if t.key in docs then multiset(top)[t] else 0
    ensures forall i :: 0 <= i < |kept| ==> kept[i].total == CountKey(loans, g, kept[i].key) >= 1
    ensures forall i :: 0 <= i < |kept| ==> kept[i].active == CountActiveKey(loans, g, kept[i].key)
  {
    forall i | 0 <= i < |kept|
      ensures kept[i].total == CountKey(loans, g, kept[i].key) >= 1
      ensures kept[i].active == CountActiveKey(loans, g, kept[i].key)
    {
      assert kept[i] in multiset(kept);
      assert kept[i] in multiset(top);
      var j :| 0 <= j < |top| && top[j] == kept[i];
    }
  }

  /**
   * A key with a document that the join of the top groups did not list was not among the top
   * groups, so it counts no more than any kept group.
   */
  lemma {:induction false} KeyLeftOutCountsLess<D>(loans: seq<Loan>, g: GroupKey, top: seq<Tally>, kept: seq<Tally>,
                                                   docs: map<Id, D>, k: Id)
    requires forall t :: t in Tallies(loans, g) && t !in top ==> forall i :: 0 <= i < |top| ==> t.total <= top[i].total
    requires forall t :: multiset(kept)[t] == if t.key in docs then multiset(top)[t] else 0
    requires k in docs && CountKey(loans, g, k) >= 1 && forall i :: 0 <= i < |kept| ==> kept[i].key != k
    ensures forall i :: 0 <= i < |kept| ==> CountKey(loans, g, k) <= kept[i].total
  {
    var t := Find(Tallies(loans, g), k).value;
    assert t !in multiset(kept);
    forall i | 0 <= i < |kept|
      ensures t.total <= kept[i].total
    {
      assert kept[i] in multiset(kept);
      assert kept[i] in multiset(top);
    }
  }

  datatype BookRow = BookRow(bookId: Id, title: string, author: string, borrowCount: nat)

  function BookRowOf(t: Tally, books: map<Id, Book>): (row: BookRow)
    requires t.key in books
    ensures row.bookId == t.key && row.borrowCount == t.total
    ensures row.title == books[t.key].title && row.author == books[t.key].author
  {
    BookRow(t.key, books[t.key].title, books[t.key].author, t.total)
  }

  /** `$project` of the joined book groups. */
  function BookRows(kept: seq<Tally>, books: map<Id, Book>): (r: seq<BookRow>)
    requires forall i :: 0 <= i < |kept| ==> kept[i].key in books
    ensures |r| == |kept|
    ensures forall i :: 0 <= i < |r| ==> r[i].bookId == kept[i].key && r[i].borrowCount == kept[i].total
    ensures forall i :: 0 <= i < |r| ==> r[i].title == books[kept[i].key].title && r[i].author == books[kept[i].key].author
  {
    seq(|kept|, i requires 0 <= i < |kept| => BookRowOf(kept[i], books))
  }

  /**
   * `getPopularBooks`: group the loans by book, sort by count descending, keep ten, then join with
   * the books; a top-ten book that no longer exists is dropped, not replaced.
   */
  function PopularBooks(loans: seq<Loan>, books: map<Id, Book>): (r: seq<BookRow>)
    ensures |r| <= 10
    ensures forall i :: 0 <= i < |r| ==> r[i].bookId in books && r[i].title == books[r[i].bookId].title
                                          && r[i].author == books[r[i].bookId].author
    ensures forall i :: 0 <= i < |r| ==> r[i].borrowCount == CountKey(loans, ByBook, r[i].bookId) >= 1
    ensures forall i, j :: 0 <= i < j < |r| ==> r[i].borrowCount >= r[j].borrowCount
    ensures |r| == |JoinedTop(loans, ByBook, 10, books)|
    ensures forall i :: 0 <= i < |r| ==> r[i].bookId == JoinedTop(loans, ByBook, 10, books)[i].key
  {
    BookRows(JoinedTop(loans, ByBook, 10, books), books)
  }

  /** A book that still exists and is not listed has been borrowed no more often than any listed book. */
  lemma PopularBooksAreMostBorrowed(loans: seq<Loan>, books: map<Id, Book>, k: Id)
    requires k in books && CountKey(loans, ByBook, k) >= 1
    requires forall i :: 0 <= i < |PopularBooks(loans, books)| ==> PopularBooks(loans, books)[i].bookId != k
    ensures forall i :: 0 <= i < |PopularBooks(loans, books)|
                        ==> CountKey(loans, ByBook, k) <= PopularBooks(loans, books)[i].borrowCount
  {
    var kept, rows := JoinedTop(loans, ByBook, 10, books), PopularBooks(loans, books);
    forall i | 0 <= i < |kept|
      ensures kept[i].key != k
    {
      assert rows[i].bookId == kept[i].key;
    }
    KeyLeftOutCountsLess(loans, ByBook, TopTallies(loans, ByBook, 10), kept, books, k);
  }

  datatype UserRow = UserRow(userId: Id, name: string, booksBorrowed: nat, currentBorrows: nat)

  function UserRowOf(t: Tally, users: map<Id, User>): (row: UserRow)
    requires t.key in users
    ensures row.userId == t.key && row.name == users[t.key].name
    ensures row.booksBorrowed == t.total && row.currentBorrows == t.active
  {
    UserRow(t.key, users[t.key].name, t.total, t.active)
  }

  /** `$project` of the joined user groups. */
  function UserRows(kept: seq<Tally>, users: map<Id, User>): (r: seq<UserRow>)
    requires forall i :: 0 <= i < |kept| ==> kept[i].key in users
    ensures |r| == |kept|
    ensures forall i :: 0 <= i < |r| ==> r[i].userId == kept[i].key && r[i].name == users[kept[i].key].name
    ensures forall i :: 0 <= i < |r| ==> r[i].booksBorrowed == kept[i].total && r[i].currentBorrows == kept[i].active
  {
    seq(|kept|, i requires 0 <= i < |kept| => UserRowOf(kept[i], users))
  }

  /**
   * `getActiveUsers`: group the loans by user counting all and the ACTIVE ones, sort by all
   * descending, keep ten, join with the users.
   */
  function ActiveUsers(loans: seq<Loan>, users: map<Id, User>): (r: seq<UserRow>)
    ensures |r| <= 10
    ensures forall i :: 0 <= i < |r| ==> r[i].userId in users && r[i].name == users[r[i].userId].name
    ensures forall i :: 0 <= i < |r| ==> r[i].booksBorrowed == CountKey(loans, ByUser, r[i].userId) >= 1
    ensures forall i :: 0 <= i < |r| ==> r[i].currentBorrows == CountActiveKey(loans, ByUser, r[i].userId)
                                          <= r[i].booksBorrowed
    ensures forall i, j :: 0 <= i < j < |r| ==> r[i].booksBorrowed >= r[j].booksBorrowed
    ensures |r| == |JoinedTop(loans, ByUser, 10, users)|
    ensures forall i :: 0 <= i < |r| ==> r[i].userId == JoinedTop(loans, ByUser, 10, users)[i].key
  {
    UserRows(JoinedTop(loans, ByUser, 10, users), users)
  }

  /** A user who still exists and is not listed has borrowed no more often than any listed user. */
  lemma ActiveUsersAreMostActive(loans: seq<Loan>, users: map<Id, User>, k: Id)
    requires k in users && CountKey(loans, ByUser, k) >= 1
    requires forall i :: 0 <= i < |ActiveUsers(loans, users)| ==> ActiveUsers(loans, users)[i].userId != k
    ensures forall i :: 0 <= i < |ActiveUsers(loans, users)|
                        ==> CountKey(loans, ByUser, k) <= ActiveUsers(loans, users)[i].booksBorrowed
  {
    var kept, rows := JoinedTop(loans, ByUser, 10, users), ActiveUsers(loans, users);
    forall i | 0 <= i < |kept|
      ensures kept[i].key != k
    {
      assert rows[i].userId == kept[i].key;
    }
    KeyLeftOutCountsLess(loans, ByUser, TopTallies(loans, ByUser, 10), kept, users, k);
  }

  /** When every loaned book still exists, the join drops nothing: ten rows, or one per book. */
  lemma PopularBooksComplete(loans: seq<Loan>, books: map<Id, Book>)
    requires forall i :: 0 <= i < |loans| ==> loans[i].book in books
    ensures |PopularBooks(loans, books)| == Min(10, |Tallies(loans, ByBook)|)
  {
    var top := TopTallies(loans, ByBook, 10);
    forall i | 0 <= i < |top| ensures top[i].key in books {
      CountedKeyOccurs(loans, ByBook, top[i].key);
    }
    FilterAll(top, (t: Tally) => t.key in books);
  }

  /** A group counted at all has a loan with that key. */
  lemma {:induction false} CountedKeyOccurs(loans: seq<Loan>, g: GroupKey, k: Id)
    requires CountKey(loans, g, k) >= 1
    ensures exists i :: 0 <= i < |loans| && KeyOf(loans[i], g) == k
  {
    if KeyOf(loans[0], g) != k {
      CountedKeyOccurs(loans[1..], g, k);
      var i :| 0 <= i < |loans[1..]| && KeyOf(loans[1..][i], g) == k;
      assert KeyOf(loans[i + 1], g) == k;
    }
  }

  /** A most-borrowed book that has been deleted leaves the list one row short. */
  lemma DeletedBookShortensList(l: Loan, books: map<Id, Book>)
    requires l.book !in books
    ensures |Tallies([l], ByBook)| == 1
    ensures PopularBooks([l], books) == []
  {
    TallyRow([l], ByBook, 0);
  }

  datatype Overview = Overview(
    totalBooks: int,
    totalUsers: nat,
    booksAvailable: int,
    booksBorrowed: nat,
    overdueLoans: nat,
    loansToday: nat,
    returnsToday: nat)

  /**
   * `getSystemOverview`: the copy totals (0 without books), the user count, the ACTIVE and OVERDUE
   * counts, and the loans issued and returned since `midnight`, the start of the local day.
   */
  function SystemOverview(books: seq<Book>, userCount: nat, loans: seq<Loan>, midnight: int): (o: Overview)
    ensures o.totalBooks == BookController.SumCopies(books) && o.booksAvailable == BookController.SumAvailable(books)
    ensures books == [] ==> o.totalBooks == 0 && o.booksAvailable == 0
    ensures o.totalUsers == userCount
    ensures o.booksBorrowed == CountStatus(loans, Active) && o.overdueLoans == CountStatus(loans, Overdue)
    ensures o.loansToday == CountIssuedSince(loans, midnight) && o.returnsToday == CountReturnedSince(loans, midnight)
  {
    var totals := BookController.GetBookStats(books);
    Overview(totals.total, userCount, totals.available, CountStatus(loans, Active), CountStatus(loans, Overdue),
             CountIssuedSince(loans, midnight), CountReturnedSince(loans, midnight))
  }

  /**
   * The overview's loan counts agree with each other: the borrowed and the overdue loans are at most
   * all loans, and, for well-formed loans, those returned today are among those not borrowed or overdue.
   */
  lemma OverviewConsistent(books: seq<Book>, userCount: nat, loans: seq<Loan>, midnight: int)
    requires forall i :: 0 <= i < |loans| ==> WellFormed(loans[i])
    ensures var o := SystemOverview(books, userCount, loans, midnight);
            o.booksBorrowed + o.overdueLoans + o.returnsToday <= |loans|
  {
    StatusCountsPartition(loans);
    ReturnsTodayAreReturned(loans, midnight);
  }
}
