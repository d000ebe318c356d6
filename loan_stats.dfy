/**
 * The loan aggregations behind the statistics endpoints: group loans by book or by user and count
 * them (`$group` with `$sum`), most first (`$sort` descending), at most ten (`$limit: 10`); loan
 * counts by status and since a given instant (`countDocuments`).
 */
module LoanStats {
  import opened Outcomes
  import opened Records
  import opened Sequences

  datatype GroupKey = ByBook | ByUser

  function KeyOf(l: Loan, g: GroupKey): Id
  {
    if g == ByBook then l.book else l.user
  }

  /** `{ $sum: 1 }` within the group of key `k`. */
  function CountKey(loans: seq<Loan>, g: GroupKey, k: Id): nat
  {
    if loans == [] then 0 else (if KeyOf(loans[0], g) == k then 1 else 0) + CountKey(loans[1..], g, k)
  }

  /** `{ $sum: { $cond: [{ $eq: ["$status", "ACTIVE"] }, 1, 0] } }` within the group of key `k`. */
  function CountActiveKey(loans: seq<Loan>, g: GroupKey, k: Id): (n: nat)
    ensures n <= CountKey(loans, g, k)
  {
    if loans == [] then 0
    else (if KeyOf(loans[0], g) == k && loans[0].status == Active then 1 else 0) + CountActiveKey(loans[1..], g, k)
  }

  /** One output document of the `$group` stage. */
  datatype Tally = Tally(key: Id, total: nat, active: nat)

  predicate DistinctKeys(ts: seq<Tally>)
  {
    forall i, j :: 0 <= i < j < |ts| ==> ts[i].key != ts[j].key
  }

  /** The first row with key `k`. */
  function Find(ts: seq<Tally>, k: Id): (r: Option<Tally>)
    ensures r.Some? ==> r.value.key == k && r.value in ts
    ensures r.None? ==> forall i :: 0 <= i < |ts| ==> ts[i].key != k
  {
    if ts == [] then None else if ts[0].key == k then Some(ts[0]) else Find(ts[1..], k)
  }

  lemma {:induction false} FindRow(ts: seq<Tally>, i: nat)
    requires DistinctKeys(ts) && i < |ts|
    ensures Find(ts, ts[i].key) == Some(ts[i])
  {
    if i > 0 {
      assert ts[0].key != ts[i].key;
      FindRow(ts[1..], i - 1);
    }
  }

  function Counted(t: Option<Tally>, k: Id, active: bool): Tally
  {
    var a := if active then 1 else 0;
    match t
    case None => Tally(k, 1, a)
    case Some(row) => row.(total := row.total + 1, active := row.active + a)
  }

  /** Adds one loan of key `k` to the groups. */
  function Bump(ts: seq<Tally>, k: Id, active: bool): (r: seq<Tally>)
    requires DistinctKeys(ts)
    ensures DistinctKeys(r)
    ensures forall k' :: Find(r, k') == if k' == k then Some(Counted(Find(ts, k), k, active)) else Find(ts, k')
  {
    if ts == [] then [Counted(None, k, active)]
    else if ts[0].key == k then [Counted(Some(ts[0]), k, active)] + ts[1..]
    else
      var rest := Bump(ts[1..], k, active);
      assert forall i :: 0 <= i < |rest| ==> rest[i].key != ts[0].key by {
        forall i | 0 <= i < |rest| ensures rest[i].key != ts[0].key {
          var f := Find(rest, rest[i].key);
          assert f.Some?;
        }
      }
      [ts[0]] + rest
  }

  /** The `$group` stage: one row per key that occurs, holding that key's total and ACTIVE counts. */
  function Tallies(loans: seq<Loan>, g: GroupKey): (r: seq<Tally>)
    ensures DistinctKeys(r)
    ensures forall k :: Find(r, k) == if CountKey(loans, g, k) == 0 then None
                                     else Some(Tally(k, CountKey(loans, g, k), CountActiveKey(loans, g, k)))
  {
    if loans == [] then []
    else
      var rest := Tallies(loans[1..], g);
      BumpCounts(loans, g, rest);
      Bump(rest, KeyOf(loans[0], g), loans[0].status == Active)
  }

  /** The groups of the tail with the head loan added are the groups of the whole sequence. */
  lemma {:induction false} BumpCounts(loans: seq<Loan>, g: GroupKey, rest: seq<Tally>)
    requires loans != [] && DistinctKeys(rest)
    requires forall k :: Find(rest, k) == if CountKey(loans[1..], g, k) == 0 then None
                                          else Some(Tally(k, CountKey(loans[1..], g, k), CountActiveKey(loans[1..], g, k)))
    ensures forall k :: Find(Bump(rest, KeyOf(loans[0], g), loans[0].status == Active), k)
                        == if CountKey(loans, g, k) == 0 then None
                           else Some(Tally(k, CountKey(loans, g, k), CountActiveKey(loans, g, k)))
  {
    forall k
      ensures Find(Bump(rest, KeyOf(loans[0], g), loans[0].status == Active), k)
              == if CountKey(loans, g, k) == 0 then None
                 else Some(Tally(k, CountKey(loans, g, k), CountActiveKey(loans, g, k)))
    {
      BumpCountsAt(loans, g, rest, k);
    }
  }

  /** The group row key `k` should have: none for a key without loans, otherwise its two counts. */
  function GroupOf(loans: seq<Loan>, g: GroupKey, k: Id): Option<Tally>
  {
    if CountKey(loans, g, k) == 0 then None else Some(Tally(k, CountKey(loans, g, k), CountActiveKey(loans, g, k)))
  }

  /** `BumpCounts` at one key. */
  lemma BumpCountsAt(loans: seq<Loan>, g: GroupKey, rest: seq<Tally>, k: Id)
    requires loans != [] && DistinctKeys(rest)
    requires Find(rest, k) == GroupOf(loans[1..], g, k)
    ensures Find(Bump(rest, KeyOf(loans[0], g), loans[0].status == Active), k) == GroupOf(loans, g, k)
  {
    FindAfterBump(rest, KeyOf(loans[0], g), loans[0].status == Active, k);
    GroupAfterHead(loans, g, Find(rest, k), k);
  }

  lemma FindAfterBump(rest: seq<Tally>, k0: Id, active: bool, k: Id)
    requires DistinctKeys(rest)
    ensures Find(Bump(rest, k0, active), k) == if k == k0 then Some(Counted(Find(rest, k0), k0, active)) else Find(rest, k)
  {
  }

  /** Counting the head loan into the tail's group row of `k` gives the whole sequence's row. */
  lemma GroupAfterHead(loans: seq<Loan>, g: GroupKey, before: Option<Tally>, k: Id)
    requires loans != []
    requires before == GroupOf(loans[1..], g, k)
    ensures var k0, active := KeyOf(loans[0], g), loans[0].status == Active;
            (if k == k0 then Some(Counted(before, k0, active)) else before) == GroupOf(loans, g, k)
  {
    var k0, active := KeyOf(loans[0], g), loans[0].status == Active;
    CountsStep(loans, g, k);
    CountedStep(before, k, k0, active, CountKey(loans[1..], g, k), CountActiveKey(loans[1..], g, k));
  }

  lemma CountsStep(loans: seq<Loan>, g: GroupKey, k: Id)
    requires loans != []
    ensures CountKey(loans, g, k) == CountKey(loans[1..], g, k) + (if KeyOf(loans[0], g) == k then 1 else 0)
    ensures CountActiveKey(loans, g, k)
            == CountActiveKey(loans[1..], g, k) + (if KeyOf(loans[0], g) == k && loans[0].status == Active then 1 else 0)
  {
  }

  lemma CountedStep(before: Option<Tally>, k: Id, k0: Id, active: bool, n: nat, m: nat)
    requires m <= n
    requires before == if n == 0 then None else Some(Tally(k, n, m))
    ensures var n', m' := n + (if k == k0 then 1 else 0), m + (if k == k0 && active then 1 else 0);
            (if k == k0 then Some(Counted(before, k0, active)) else before)
            == if n' == 0 then None else Some(Tally(k, n', m'))
  {
  }

  /** Every group row counts exactly the loans of its key, and at least one. */
  lemma TallyRow(loans: seq<Loan>, g: GroupKey, i: nat)
    requires i < |Tallies(loans, g)|
    ensures var t := Tallies(loans, g)[i];
            t.total == CountKey(loans, g, t.key) >= 1 && t.active == CountActiveKey(loans, g, t.key) <= t.total
  {
    FindRow(Tallies(loans, g), i);
  }

  function MostFirst(t: Tally): int
  {
    0 - t.total as int
  }

  /** `$sort: { count: -1 }` then `$limit: n`. */
  function Top(ts: seq<Tally>, n: nat): (r: seq<Tally>)
    ensures |r| == Min(n, |ts|)
    ensures forall i, j :: 0 <= i < j < |r| ==> r[i].total >= r[j].total
    ensures multiset(r) <= multiset(ts)
    ensures forall t :: t in ts && t !in r ==> forall i :: 0 <= i < |r| ==> t.total <= r[i].total
  {
    var sorted := SortBy(ts, MostFirst);
    TopKeepsLargest(ts, sorted, n);
    Take(sorted, n)
  }

  /** A prefix of the groups sorted by descending count: descending, and no dropped group counts more. */
  lemma {:induction false} TopKeepsLargest(ts: seq<Tally>, sorted: seq<Tally>, n: nat)
    requires SortedBy(sorted, MostFirst) && multiset(sorted) == multiset(ts)
    ensures forall i, j :: 0 <= i < j < |Take(sorted, n)| ==> Take(sorted, n)[i].total >= Take(sorted, n)[j].total
    ensures multiset(Take(sorted, n)) <= multiset(ts)
    ensures forall t :: t in ts && t !in Take(sorted, n)
                        ==> forall i :: 0 <= i < |Take(sorted, n)| ==> t.total <= Take(sorted, n)[i].total
  {
    var r := Take(sorted, n);
    TakeSortedKeepsLeast(sorted, MostFirst, n);
    forall i, j | 0 <= i < j < |r|
      ensures r[i].total >= r[j].total
    {
      assert r[i] == sorted[i] && r[j] == sorted[j];
      assert MostFirst(sorted[i]) <= MostFirst(sorted[j]);
    }
    forall t | t in ts && t !in r
      ensures forall i :: 0 <= i < |r| ==> t.total <= r[i].total
    {
      assert t in multiset(ts);
      assert t in sorted;
      forall i | 0 <= i < |r|
        ensures t.total <= r[i].total
      {
        assert MostFirst(r[i]) <= MostFirst(t);
      }
    }
  }

  /**
   * The `n` largest groups, each row holding its key's counts: rows of the grouping, one per key,
   * and every key left out counts no more than any key kept.
   */
  function TopTallies(loans: seq<Loan>, g: GroupKey, n: nat): (r: seq<Tally>)
    ensures |r| == Min(n, |Tallies(loans, g)|)
    ensures forall i :: 0 <= i < |r| ==> r[i].total == CountKey(loans, g, r[i].key) >= 1
    ensures forall i :: 0 <= i < |r| ==> r[i].active == CountActiveKey(loans, g, r[i].key)
    ensures forall i, j :: 0 <= i < j < |r| ==> r[i].total >= r[j].total
    ensures multiset(r) <= multiset(Tallies(loans, g))
    ensures DistinctKeys(r)
    ensures forall t :: t in Tallies(loans, g) && t !in r ==> forall i :: 0 <= i < |r| ==> t.total <= r[i].total
  {
    var top := Top(Tallies(loans, g), n);
    RowsOfTallies(loans, g, top);
    SelectionHasDistinctKeys(Tallies(loans, g), top);
    top
  }

  /** A key with loans that the top groups leave out counts no more than any key they keep. */
  lemma TopTalliesLeaveOutNoLarger(loans: seq<Loan>, g: GroupKey, n: nat, k: Id)
    requires CountKey(loans, g, k) >= 1
    requires forall i :: 0 <= i < |TopTallies(loans, g, n)| ==> TopTallies(loans, g, n)[i].key != k
    ensures forall i :: 0 <= i < |TopTallies(loans, g, n)| ==> CountKey(loans, g, k) <= TopTallies(loans, g, n)[i].total
  {
    var t := Find(Tallies(loans, g), k).value;
    assert t !in TopTallies(loans, g, n);
  }

  /** A selection from rows with distinct keys, taking each row at most once, has distinct keys. */
  lemma {:induction false} SelectionHasDistinctKeys(ts: seq<Tally>, r: seq<Tally>)
    requires DistinctKeys(ts) && multiset(r) <= multiset(ts)
    requires forall i, j :: 0 <= i < |r| && 0 <= j < |r| && r[i].key == r[j].key ==> r[i] == r[j]
    ensures DistinctKeys(r)
  {
    forall i, j | 0 <= i < j < |r|
      ensures r[i].key != r[j].key
    {
      if r[i].key == r[j].key {
        AtMostOnce(ts, r[i]);
        Twice(r, i, j);
        assert false;
      }
    }
  }

  /** A row occurs at most once among rows with distinct keys. */
  lemma {:induction false} AtMostOnce(ts: seq<Tally>, t: Tally)
    requires DistinctKeys(ts)
    ensures multiset(ts)[t] <= 1
  {
    if ts != [] {
      assert ts == [ts[0]] + ts[1..];
      AtMostOnce(ts[1..], t);
      if ts[0] == t {
        assert t !in ts[1..];
      }
    }
  }

  /** An element at two positions occurs at least twice. */
  lemma {:induction false} Twice(r: seq<Tally>, i: nat, j: nat)
    requires i < j < |r| && r[i] == r[j]
    ensures multiset(r)[r[i]] >= 2
  {
    assert r == r[..j] + r[j..];
    assert r[i] in r[..j];
    assert r[j] in r[j..];
  }

  /** Any selection of the grouped rows holds, row by row, its key's counts. */
  lemma {:induction false} RowsOfTallies(loans: seq<Loan>, g: GroupKey, top: seq<Tally>)
    requires multiset(top) <= multiset(Tallies(loans, g))
    ensures forall i :: 0 <= i < |top| ==> top[i].total == CountKey(loans, g, top[i].key) >= 1
    ensures forall i :: 0 <= i < |top| ==> top[i].active == CountActiveKey(loans, g, top[i].key)
  {
    var tallies := Tallies(loans, g);
    forall i | 0 <= i < |top|
      ensures top[i].total == CountKey(loans, g, top[i].key) >= 1
      ensures top[i].active == CountActiveKey(loans, g, top[i].key)
    {
      assert top[i] in multiset(tallies);
      var j :| 0 <= j < |tallies| && tallies[j] == top[i];
      TallyRow(loans, g, j);
    }
  }

  /** `Loan.countDocuments({ status })`. */
  function CountStatus(loans: seq<Loan>, s: Status): (n: nat)
    ensures n <= |loans|
    ensures n == 0 <==> forall i :: 0 <= i < |loans| ==> loans[i].status != s
    ensures n == |loans| <==> forall i :: 0 <= i < |loans| ==> loans[i].status == s
  {
    if loans == [] then 0 else (if loans[0].status == s then 1 else 0) + CountStatus(loans[1..], s)
  }

  /** The three status counts partition the loans. */
  lemma {:induction false} StatusCountsPartition(loans: seq<Loan>)
    ensures CountStatus(loans, Active) + CountStatus(loans, Overdue) + CountStatus(loans, Returned) == |loans|
  {
    if loans != [] {
      StatusCountsPartition(loans[1..]);
    }
  }

  /** `Loan.countDocuments({ issueDate: { $gte: since } })`. */
  function CountIssuedSince(loans: seq<Loan>, since: int): (n: nat)
    ensures n <= |loans|
    ensures n == 0 <==> forall i :: 0 <= i < |loans| ==> loans[i].issueDate < since
    ensures n == |loans| <==> forall i :: 0 <= i < |loans| ==> loans[i].issueDate >= since
  {
    if loans == [] then 0 else (if loans[0].issueDate >= since then 1 else 0) + CountIssuedSince(loans[1..], since)
  }

  /** `Loan.countDocuments({ returnDate: { $gte: since } })`: a loan without a return date never matches. */
  function CountReturnedSince(loans: seq<Loan>, since: int): (n: nat)
    ensures n <= |loans|
    ensures n == 0 <==> forall i :: 0 <= i < |loans| ==> !(loans[i].returnDate.Some? && loans[i].returnDate.value >= since)
    ensures n == |loans| <==> forall i :: 0 <= i < |loans| ==> loans[i].returnDate.Some? && loans[i].returnDate.value >= since
  {
    if loans == [] then 0
    else (if loans[0].returnDate.Some? && loans[0].returnDate.value >= since then 1 else 0)
         + CountReturnedSince(loans[1..], since)
  }

  /** Among well-formed loans, those returned since an instant are among the RETURNED ones. */
  lemma {:induction false} ReturnsTodayAreReturned(loans: seq<Loan>, since: int)
    requires forall i :: 0 <= i < |loans| ==> WellFormed(loans[i])
    ensures CountReturnedSince(loans, since) <= CountStatus(loans, Returned)
  {
    if loans != [] {
      ReturnsTodayAreReturned(loans[1..], since);
    }
  }

  // ------------------------------------------- loan-service helpers for the stats service

  /** The book title (and author) a row shows: from the lookup when it found the book, otherwise "Unknown". */
  datatype Label = Label(title: string, author: string)

  function BookLabel(lookup: Settled<Option<BookJson>>): (l: Label)
    ensures lookup.Fulfilled? && lookup.value.Some?
            ==> l == Label(lookup.value.value.title, lookup.value.value.author)
    ensures !(lookup.Fulfilled? && lookup.value.Some?) ==> l == Label("Unknown", "Unknown")
  {
    match lookup
    case Fulfilled(Some(b)) => Label(b.title, b.author)
    case _ => Label("Unknown", "Unknown")
  }

  datatype PopularRow = PopularRow(bookId: Id, title: string, author: string, borrowCount: nat)

  /**
   * `getPopularBooksData`: the ten most borrowed books with their borrow counts; a book whose lookup
   * fails or finds nothing is still listed, as "Unknown". `lookup` gives each remote lookup's outcome.
   */
  function PopularBooksData(loans: seq<Loan>, lookup: Id -> Settled<Option<BookJson>>): (r: seq<PopularRow>)
    ensures |r| == Min(10, |Tallies(loans, ByBook)|)
    ensures forall i :: 0 <= i < |r| ==> r[i].borrowCount == CountKey(loans, ByBook, r[i].bookId) >= 1
    ensures forall i, j :: 0 <= i < j < |r| ==> r[i].borrowCount >= r[j].borrowCount
    ensures forall i :: 0 <= i < |r| ==> Label(r[i].title, r[i].author) == BookLabel(lookup(r[i].bookId))
    ensures forall i :: 0 <= i < |r| ==> r[i].bookId == TopTallies(loans, ByBook, 10)[i].key
  {
    var top := TopTallies(loans, ByBook, 10);
    seq(|top|, i requires 0 <= i < |top| =>
      var shown := BookLabel(lookup(top[i].key));
      PopularRow(top[i].key, shown.title, shown.author, top[i].total))
  }

  datatype ActiveRow = ActiveRow(userId: Id, name: string, booksBorrowed: nat, currentBorrows: nat)

  /** The user's name a row shows: from the lookup when it found the user, otherwise "Unknown". */
  function UserName(lookup: Settled<Option<User>>): (name: string)
    ensures lookup.Fulfilled? && lookup.value.Some? ==> name == lookup.value.value.name
    ensures !(lookup.Fulfilled? && lookup.value.Some?) ==> name == "Unknown"
  {
    match lookup
    case Fulfilled(Some(u)) => u.name
    case _ => "Unknown"
  }

  /**
   * `getActiveUsersData`: the ten users with most loans; `currentBorrows` counts only their ACTIVE
   * loans, so it never exceeds `booksBorrowed`.
   */
  function ActiveUsersData(loans: seq<Loan>, lookup: Id -> Settled<Option<User>>): (r: seq<ActiveRow>)
    ensures |r| == Min(10, |Tallies(loans, ByUser)|)
    ensures forall i :: 0 <= i < |r| ==> r[i].booksBorrowed == CountKey(loans, ByUser, r[i].userId) >= 1
    ensures forall i :: 0 <= i < |r| ==> r[i].currentBorrows == CountActiveKey(loans, ByUser, r[i].userId)
    ensures forall i :: 0 <= i < |r| ==> r[i].currentBorrows <= r[i].booksBorrowed
    ensures forall i, j :: 0 <= i < j < |r| ==> r[i].booksBorrowed >= r[j].booksBorrowed
    ensures forall i :: 0 <= i < |r| ==> r[i].userId == TopTallies(loans, ByUser, 10)[i].key
    ensures forall i :: 0 <= i < |r| ==> r[i].name == UserName(lookup(r[i].userId))
  {
    var top := TopTallies(loans, ByUser, 10);
    seq(|top|, i requires 0 <= i < |top| =>
      ActiveRow(top[i].key, UserName(lookup(top[i].key)), top[i].total, top[i].active))
  }
}
