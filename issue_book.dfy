/** The issue desk (scripts/issue-book.js): the guarded issue handler, its
    transaction ids, the due-date helper, a member's issued count and the
    recent-issues list. */
module IssueBook {
  import opened Common
  import opened Entities
  import opened Ledger
  import ReturnBook

  /** `generateTransactionId`: "T", the last six digits of the clock
      reading and a random number below 1000 padded to three digits (`rand`
      stands for `Math.floor(Math.random() * 1000)`). */
  function GenerateTransactionId(now: nat, rand: nat): (id: string)
    requires rand < 1000
    ensures 5 <= |id| <= 10 && id[0] == 'T' && AllDigits(id[1..])
    ensures |id| == 4 + Min(6, |Decimal(now)|)
    ensures now >= 100000 ==> |id| == 10
  {
    StampedId('T', now, rand)
  }

  /** The issue-period choice: a number of days, or "custom". */
  datatype IssuePeriod = Custom | PeriodDays(days: nat)

  /** `updateDueDate`: with a fixed period and an issue date the due date is
      the issue date plus the period; otherwise the field keeps its value. */
  function UpdateDueDate(period: IssuePeriod, issueDate: Option<nat>, current: Option<nat>): (due: Option<nat>)
    ensures period.PeriodDays? && issueDate.Some? ==>
      due.Some? && due.value >= issueDate.value && due.value - issueDate.value == period.days
    ensures !(period.PeriodDays? && issueDate.Some?) ==> due == current
  {
    if period.PeriodDays? && issueDate.Some? then Some(issueDate.value + period.days) else current
  }

  /** The loan `handleIssueSubmit` records. */
  function NewLoan(s: Store, bi: nat, mi: nat, issueDate: nat, dueDate: nat, priority: string,
                   notes: string, now: nat, rand: nat): Transaction
    requires bi < |s.books| && mi < |s.members| && rand < 1000
  {
    Transaction(GenerateTransactionId(now, rand), s.books[bi].id, s.books[bi].title, s.members[mi].id,
                s.members[mi].name, issueDate, dueDate, None, TxIssued, notes, None, None,
                Some(if priority == "" then "Normal" else priority), Some(now))
  }

  /** `handleIssueSubmit`: the four fields are required; an unknown book or
      member is refused; a book that is not Available is refused; otherwise
      a loan with status Issued, no return date, priority defaulting to
      "Normal" and the clock as creation time is pushed and the book is
      marked Issued. The member's status and the order of the dates are not
      checked. */
  function HandleIssueSubmit(s: Store, bookId: string, memberId: string, issueDate: Option<nat>,
                             dueDate: Option<nat>, priority: string, notes: string, now: nat, rand: nat): (r: Result<Store>)
    requires rand < 1000
    ensures bookId == "" || memberId == "" || issueDate.None? || dueDate.None? ==> r == Err(Validation)
    ensures bookId != "" && memberId != "" && issueDate.Some? && dueDate.Some? ==>
      (r == Err(NotFound) <==> BookIndex(s.books, bookId) < 0 || MemberIndex(s.members, memberId) < 0)
    ensures r == Err(Conflict) <==>
      bookId != "" && memberId != "" && issueDate.Some? && dueDate.Some? &&
      BookIndex(s.books, bookId) >= 0 && MemberIndex(s.members, memberId) >= 0 &&
      s.books[BookIndex(s.books, bookId)].status != Available
    ensures r.Ok? <==>
      && bookId != "" && memberId != "" && issueDate.Some? && dueDate.Some?
      && BookIndex(s.books, bookId) >= 0 && MemberIndex(s.members, memberId) >= 0
      && s.books[BookIndex(s.books, bookId)].status == Available
    ensures r.Ok? ==>
      var bi := BookIndex(s.books, bookId);
      var mi := MemberIndex(s.members, memberId);
      && bi >= 0 && mi >= 0 && s.books[bi].status == Available
      && OpenedLoan(s, r.value, Transaction(GenerateTransactionId(now, rand), bookId, s.books[bi].title,
                                            memberId, s.members[mi].name, issueDate.value, dueDate.value,
                                            None, TxIssued, notes, None, None,
                                            Some(if priority == "" then "Normal" else priority), Some(now)))
  {
    if bookId == "" || memberId == "" || issueDate.None? || dueDate.None? then Err(Validation)
    else
      var bi := BookIndex(s.books, bookId);
      var mi := MemberIndex(s.members, memberId);
      if bi < 0 || mi < 0 then Err(NotFound)
      else if s.books[bi].status != Available then Err(Conflict)
      else Ok(OpenLoanWith(s, NewLoan(s, bi, mi, issueDate.value, dueDate.value, priority, notes, now, rand)))
  }

  /** This issue path always keeps the ledger invariant. */
  lemma HandleIssueSubmitLedger(s: Store, bookId: string, memberId: string, issueDate: Option<nat>,
                                dueDate: Option<nat>, priority: string, notes: string, now: nat, rand: nat)
    requires rand < 1000
    requires Consistent(s.books, s.transactions)
    requires HandleIssueSubmit(s, bookId, memberId, issueDate, dueDate, priority, notes, now, rand).Ok?
    ensures var s' := HandleIssueSubmit(s, bookId, memberId, issueDate, dueDate, priority, notes, now, rand).value;
      Consistent(s'.books, s'.transactions)
  {
    var s' := HandleIssueSubmit(s, bookId, memberId, issueDate, dueDate, priority, notes, now, rand).value;
    OpenedLoanLedger(s, s', s'.transactions[|s.transactions|]);
  }

  /** Issuing the same book again right away is refused at the availability
      check. */
  lemma IssueTwiceConflicts(s: Store, bookId: string, memberId: string, issueDate: Option<nat>,
                            dueDate: Option<nat>, priority: string, notes: string, now: nat, rand: nat,
                            memberId2: string, issueDate2: Option<nat>, dueDate2: Option<nat>,
                            priority2: string, notes2: string, now2: nat, rand2: nat)
    requires rand < 1000 && rand2 < 1000
    requires HandleIssueSubmit(s, bookId, memberId, issueDate, dueDate, priority, notes, now, rand).Ok?
    requires memberId2 != "" && issueDate2.Some? && dueDate2.Some?
    requires MemberIndex(s.members, memberId2) >= 0
    ensures var s' := HandleIssueSubmit(s, bookId, memberId, issueDate, dueDate, priority, notes, now, rand).value;
      HandleIssueSubmit(s', bookId, memberId2, issueDate2, dueDate2, priority2, notes2, now2, rand2) == Err(Conflict)
  {
    var s' := HandleIssueSubmit(s, bookId, memberId, issueDate, dueDate, priority, notes, now, rand).value;
    SameIdsSameIndex(s.books, s'.books);
  }

  /** A member's issued count (`displaySelectedMember`): loans to the member
      whose stored status is exactly Issued. */
  function IssuedCount(txs: seq<Transaction>, memberId: string): nat
  {
    Count(txs, (t: Transaction) => t.memberId == memberId && t.status == TxIssued)
  }

  /** A successful issue adds one to the borrower's issued count and leaves
      every other member's count alone. */
  lemma IssueCountsForMember(s: Store, bookId: string, memberId: string, issueDate: Option<nat>,
                             dueDate: Option<nat>, priority: string, notes: string, now: nat, rand: nat, m: string)
    requires rand < 1000
    requires HandleIssueSubmit(s, bookId, memberId, issueDate, dueDate, priority, notes, now, rand).Ok?
    ensures var s' := HandleIssueSubmit(s, bookId, memberId, issueDate, dueDate, priority, notes, now, rand).value;
      IssuedCount(s'.transactions, m) == IssuedCount(s.transactions, m) + (if m == memberId then 1 else 0)
  {
    var s' := HandleIssueSubmit(s, bookId, memberId, issueDate, dueDate, priority, notes, now, rand).value;
    var t := s'.transactions[|s.transactions|];
    assert s'.transactions == s.transactions + [t];
    CountAppend(s.transactions, t, (u: Transaction) => u.memberId == m && u.status == TxIssued);
  }

  /** Quick-returning a loan that was just opened on an Available book
      under a fresh id gives the catalog back. */
  lemma ReturnOpenedLoan(s: Store, s': Store, t: Transaction, later: nat)
    requires OpenedLoan(s, s', t) && t.id != "" && TxIndex(s.transactions, t.id) < 0
    requires BookIndex(s.books, t.bookId) >= 0 && s.books[BookIndex(s.books, t.bookId)].status == Available
    ensures var r := ReturnBook.QuickReturn(s', t.id, later);
      r.Ok? && r.value.books == s.books && r.value.members == s.members
  {
    var n := |s.transactions|;
    assert TxIndex(s'.transactions, t.id) == n by {
      assert forall j :: 0 <= j < n ==> s'.transactions[j].id != t.id;
    }
    ReturnBook.QuickReturnIsSubmit(s', t.id, later);
    var r := ReturnBook.QuickReturn(s', t.id, later).value;
    OpenThenCloseRestores(s, s', t, r, r.transactions[n]);
  }

  /** Issue and return undo each other: issuing an Available book under a
      fresh transaction id and quick-returning that id puts the catalog back
      as it was. */
  lemma IssueThenReturnRestoresCatalog(s: Store, bookId: string, memberId: string, issueDate: Option<nat>,
                                       dueDate: Option<nat>, priority: string, notes: string, now: nat,
                                       rand: nat, later: nat)
    requires rand < 1000
    requires TxIndex(s.transactions, GenerateTransactionId(now, rand)) < 0
    requires HandleIssueSubmit(s, bookId, memberId, issueDate, dueDate, priority, notes, now, rand).Ok?
    ensures var s' := HandleIssueSubmit(s, bookId, memberId, issueDate, dueDate, priority, notes, now, rand).value;
      var r := ReturnBook.QuickReturn(s', GenerateTransactionId(now, rand), later);
      r.Ok? && r.value.books == s.books && r.value.members == s.members
  {
    var s' := HandleIssueSubmit(s, bookId, memberId, issueDate, dueDate, priority, notes, now, rand).value;
    ReturnOpenedLoan(s, s', s'.transactions[|s.transactions|], later);
  }

  function CreatedKey(t: Transaction): int
  {
    match t.createdAt
    case Some(c) => c
    case None => -1
  }

  predicate StoredIssued(t: Transaction)
  {
    t.status == TxIssued
  }

  /** `loadRecentIssues`: at most five loans with stored status Issued,
      newest creation time first. */
  function RecentIssues(txs: seq<Transaction>): (r: seq<Transaction>)
    ensures |r| <= 5 && SortedDesc(r, CreatedKey)
    ensures multiset(r) <= multiset(Filter(txs, StoredIssued))
    ensures forall t :: t in r ==> t in txs && StoredIssued(t)
  {
    SortedPrefix(Filter(txs, StoredIssued), CreatedKey, 5);
    Take(SortDesc(Filter(txs, StoredIssued), CreatedKey), 5)
  }

  /** They are the newest: an Issued loan left out was created no later than
      the fifth one shown. */
  lemma RecentIssuesAreNewest(txs: seq<Transaction>)
    ensures var r := RecentIssues(txs);
      forall t :: t in txs && StoredIssued(t) ==> t in r || (|r| == 5 && CreatedKey(t) <= CreatedKey(r[4]))
  {
    TopOfSorted(Filter(txs, StoredIssued), CreatedKey, 5);
  }
}
