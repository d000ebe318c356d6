/**
 * The loan state machine shared by both loan controllers: extension with its cap, return, due-date
 * update with overdue marking, and the read-side listings (overdue loans with their days overdue, a
 * user's loans newest first).
 */
module LoanMachine {
  import opened Outcomes
  import opened Records
  import opened Sequences

  const MaxExtensions: nat := 2

  datatype ExtendError = NotExtendable(status: Status) | CapReached(extensionsCount: nat)

  datatype Extension = Extended(loan: Loan) | Refused(error: ExtendError)

  /**
   * Extending by `days` days: only an ACTIVE or OVERDUE loan with fewer than two extensions; the due
   * date moves by `days` whole days, the count goes up by one and the status becomes ACTIVE.
   */
  function Extend(l: Loan, days: int): (r: Extension)
    ensures r.Extended? <==> l.status != Returned && l.extensionsCount < MaxExtensions
    ensures l.status == Returned ==> r == Refused(NotExtendable(Returned))
    ensures l.status != Returned && l.extensionsCount >= MaxExtensions ==> r == Refused(CapReached(l.extensionsCount))
    ensures r.Extended? ==> r.loan.extensionsCount == l.extensionsCount + 1 <= MaxExtensions
    ensures r.Extended? ==> r.loan.dueDate == l.dueDate + days * MsPerDay && r.loan.status == Active
    ensures r.Extended? ==> r.loan.(dueDate := l.dueDate, extensionsCount := l.extensionsCount, status := l.status) == l
  {
    if l.status == Returned then Refused(NotExtendable(l.status))
    else if l.extensionsCount >= MaxExtensions then Refused(CapReached(l.extensionsCount))
    else Extended(l.(dueDate := l.dueDate + days * MsPerDay, extensionsCount := l.extensionsCount + 1, status := Active))
  }

  /** A run of extension requests; a refused one leaves the loan as it was. */
  function ExtendAll(l: Loan, days: seq<int>): Loan
    decreases |days|
  {
    if days == [] then l
    else
      var next := match Extend(l, days[0]) case Extended(l') => l' case Refused(_) => l;
      ExtendAll(next, days[1..])
  }

  /** However many extensions are requested, a well-formed loan stays well formed: at most two succeed. */
  lemma {:induction false} ExtendAllStaysWellFormed(l: Loan, days: seq<int>)
    requires WellFormed(l)
    ensures WellFormed(ExtendAll(l, days))
    decreases |days|
  {
    if days != [] {
      var next := match Extend(l, days[0]) case Extended(l') => l' case Refused(_) => l;
      assert WellFormed(next);
      ExtendAllStaysWellFormed(next, days[1..]);
    }
  }

  /** A loan can be extended twice and the third request is refused with the current count, 2. */
  lemma ThirdExtensionRefused(l: Loan, d1: int, d2: int, d3: int)
    requires l.status != Returned && l.extensionsCount == 0
    ensures Extend(l, d1).Extended? && Extend(Extend(l, d1).loan, d2).Extended?
    ensures Extend(Extend(Extend(l, d1).loan, d2).loan, d3) == Refused(CapReached(2))
  {
  }

  /** `loan.status = "RETURNED"; loan.returnDate = now`, with no guard on the prior status. */
  function MarkReturned(l: Loan, now: int): (r: Loan)
    ensures r.status == Returned && r.returnDate == Some(now)
    ensures r.(status := l.status, returnDate := l.returnDate) == l
    ensures l.extensionsCount <= MaxExtensions ==> WellFormed(r)
  {
    l.(status := Returned, returnDate := Some(now))
  }

  /** The guarded return: only a loan whose status is not RETURNED; `None` means "already returned". */
  function Return(l: Loan, now: int): (r: Option<Loan>)
    ensures r.Some? <==> l.status != Returned
    ensures r.Some? ==> r.value == MarkReturned(l, now)
  {
    if l.status == Returned then None else Some(MarkReturned(l, now))
  }

  /** Returning twice: the second return is refused and the first one's return date stands. */
  lemma ReturnIsOnce(l: Loan, t1: int, t2: int)
    requires l.status != Returned
    ensures Return(l, t1).Some? && Return(Return(l, t1).value, t2) == None
  {
  }

  /** Setting a new due date: a due date before now also sets the status to OVERDUE, whatever it was. */
  function UpdateDue(l: Loan, newDue: int, now: int): (r: Loan)
    ensures r.dueDate == newDue
    ensures r.status == if newDue < now then Overdue else l.status
    ensures r.(dueDate := l.dueDate, status := l.status) == l
  {
    var moved := l.(dueDate := newDue);
    if newDue < now then moved.(status := Overdue) else moved
  }

  /** A due-date update keeps a loan well formed exactly unless it turns a RETURNED loan OVERDUE. */
  lemma UpdateDueWellFormed(l: Loan, newDue: int, now: int)
    requires WellFormed(l)
    ensures WellFormed(UpdateDue(l, newDue, now)) <==> !(l.status == Returned && newDue < now)
  {
  }

  // ---------------------------------------------------------------- listings

  /** A loan document: its id and its fields. */
  datatype LoanDoc = LoanDoc(id: Id, loan: Loan)

  /** The overdue query: `dueDate < now` and status ACTIVE or OVERDUE. */
  predicate IsOverdue(d: LoanDoc, now: int)
  {
    d.loan.dueDate < now && (d.loan.status == Active || d.loan.status == Overdue)
  }

  function DueKey(d: LoanDoc): int
  {
    d.loan.dueDate
  }

  /** The overdue loans, sorted by ascending due date (`find(...).sort({ dueDate: 1 })`). */
  function OverdueLoans(docs: seq<LoanDoc>, now: int): (r: seq<LoanDoc>)
    ensures forall i, j :: 0 <= i < j < |r| ==> r[i].loan.dueDate <= r[j].loan.dueDate
    ensures forall d :: multiset(r)[d] == if IsOverdue(d, now) then multiset(docs)[d] else 0
    ensures forall i :: 0 <= i < |r| ==> IsOverdue(r[i], now)
  {
    var overdue := (d: LoanDoc) => IsOverdue(d, now);
    var found := Filter(docs, overdue);
    var sorted := SortBy(found, DueKey);
    SelectionKeeps(found, sorted, overdue);
    sorted
  }

  /** `Math.ceil(n / d)` for non-negative integers. */
  function CeilDiv(n: nat, d: nat): (q: nat)
    requires d > 0
    ensures q * d >= n
    ensures q == 0 || (q - 1) * d < n
  {
    (n + d - 1) / d
  }

  function Abs(x: int): nat
  {
    if x < 0 then -x else x
  }

  /** `Math.ceil(Math.abs(now - dueDate) / 86400000)`: the whole days started since the due date. */
  function DaysOverdue(now: int, due: int): (days: nat)
    ensures days * MsPerDay >= Abs(now - due)
    ensures days == 0 || (days - 1) * MsPerDay < Abs(now - due)
    ensures due < now ==> days >= 1
  {
    CeilDiv(Abs(now - due), MsPerDay)
  }

  datatype OverdueEntry = OverdueEntry(id: Id, user: Id, book: Id, issueDate: int, dueDate: int, daysOverdue: nat)

  function Entry(d: LoanDoc, now: int): OverdueEntry
  {
    OverdueEntry(d.id, d.loan.user, d.loan.book, d.loan.issueDate, d.loan.dueDate, DaysOverdue(now, d.loan.dueDate))
  }

  /** The overdue listing: one entry per overdue loan, in due-date order, each at least one day overdue. */
  function OverdueReport(docs: seq<LoanDoc>, now: int): (r: seq<OverdueEntry>)
    ensures |r| == |OverdueLoans(docs, now)|
    ensures forall i :: 0 <= i < |r| ==> r[i] == Entry(OverdueLoans(docs, now)[i], now)
    ensures forall i :: 0 <= i < |r| ==> r[i].daysOverdue >= 1 && r[i].dueDate < now
    ensures forall i, j :: 0 <= i < j < |r| ==> r[i].dueDate <= r[j].dueDate
  {
    Entries(OverdueLoans(docs, now), now)
  }

  function Entries(loans: seq<LoanDoc>, now: int): (r: seq<OverdueEntry>)
    ensures |r| == |loans| && forall i :: 0 <= i < |r| ==> r[i] == Entry(loans[i], now)
  {
    seq(|loans|, i requires 0 <= i < |loans| => Entry(loans[i], now))
  }

  /** A loan due three days ago and still ACTIVE is listed as 3 days overdue. */
  lemma ThreeDaysOverdue(id: Id, l: Loan, now: int)
    requires l.status == Active && l.dueDate == now - 3 * MsPerDay
    ensures OverdueReport([LoanDoc(id, l)], now) == [Entry(LoanDoc(id, l), now)]
    ensures Entry(LoanDoc(id, l), now).daysOverdue == 3
  {
    var d := LoanDoc(id, l);
    var r := OverdueLoans([d], now);
    assert multiset(r)[d] == 1;
    assert |r| == 1 by {
      assert |multiset(r)| == |r|;
      assert multiset(r) == multiset{d} by {
        forall x ensures multiset(r)[x] == multiset{d}[x] {
        }
      }
    }
    assert r[0] in multiset(r);
  }

  function NewestFirst(d: LoanDoc): int
  {
    -d.loan.issueDate
  }

  /** A user's loans, newest first (`find({ user }).sort({ issueDate: -1 })`). */
  function UserLoans(docs: seq<LoanDoc>, user: Id): (r: seq<LoanDoc>)
    ensures forall i, j :: 0 <= i < j < |r| ==> r[i].loan.issueDate >= r[j].loan.issueDate
    ensures forall d :: multiset(r)[d] == if d.loan.user == user then multiset(docs)[d] else 0
  {
    SortBy(Filter(docs, (d: LoanDoc) => d.loan.user == user), NewestFirst)
  }
}
