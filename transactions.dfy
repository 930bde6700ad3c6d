/** The loan register page (scripts/transactions.js): its own issue and
    return forms, quick return, renewal, the register filter and its id
    generator. */
module Transactions {
  import opened Common
  import opened Entities
  import opened Ledger
  import ReturnBook

  /** `generateId("T")`: "T" and the decimal digits of a random integer below
      1000000 (`rand` stands for `Math.floor(Math.random() * 1000000)`). */
  function GenerateId(rand: nat): (id: string)
    requires rand < 1000000
    ensures 2 <= |id| <= 7 && id[0] == 'T'
    ensures AllDigits(id[1..]) && DecimalValue(id[1..]) == rand
  {
    PrefixedIdFormat("T", rand);
    DecimalLength(rand, 6);
    PrefixedId("T", rand)
  }

  /** `handleIssueBook`: an unknown book or member changes nothing; otherwise
      a loan is pushed with the titles copied, no return date and status
      Issued, and the book is marked Issued. Neither the book's availability
      nor the member's status is checked, and the dates are taken as given. */
  function HandleIssueBook(s: Store, bookId: string, memberId: string, issueDate: nat, dueDate: nat,
                           notes: string, rand: nat): (r: Result<Store>)
    requires rand < 1000000
    ensures r.Err? <==> BookIndex(s.books, bookId) < 0 || MemberIndex(s.members, memberId) < 0
    ensures r.Err? ==> r.error == NotFound
    ensures r.Ok? ==>
      var book := s.books[BookIndex(s.books, bookId)];
      var member := s.members[MemberIndex(s.members, memberId)];
      OpenedLoan(s, r.value, Transaction(GenerateId(rand), bookId, book.title, memberId, member.name,
                                         issueDate, dueDate, None, TxIssued, notes, None, None, None, None))
  {
    var bi := BookIndex(s.books, bookId);
    var mi := MemberIndex(s.members, memberId);
    if bi < 0 || mi < 0 then Err(NotFound)
    else
      Ok(OpenLoanWith(s, Transaction(GenerateId(rand), bookId, s.books[bi].title, memberId, s.members[mi].name,
                                     issueDate, dueDate, None, TxIssued, notes, None, None, None, None)))
  }

  /** Issuing here keeps the ledger invariant exactly when the book was
      Available: issuing an Issued book leaves it with two open loans. */
  lemma HandleIssueBookLedger(s: Store, bookId: string, memberId: string, issueDate: nat, dueDate: nat,
                              notes: string, rand: nat)
    requires rand < 1000000
    requires Consistent(s.books, s.transactions)
    requires HandleIssueBook(s, bookId, memberId, issueDate, dueDate, notes, rand).Ok?
    ensures var s' := HandleIssueBook(s, bookId, memberId, issueDate, dueDate, notes, rand).value;
      Consistent(s'.books, s'.transactions) <==> s.books[BookIndex(s.books, bookId)].status == Available
  {
    var s' := HandleIssueBook(s, bookId, memberId, issueDate, dueDate, notes, rand).value;
    OpenedLoanLedger(s, s', s'.transactions[|s.transactions|]);
  }

  /** `handleReturnBook`: no field is required; an unknown id changes
      nothing; otherwise the first loan with the id gets status Returned, the
      entered return date (None when left empty) and the appended notes, and
      its book is released. No fine is computed and the condition is not
      stored. */
  function HandleReturnBook(s: Store, txId: string, returnDate: Option<nat>, notes: string): (r: Result<Store>)
    ensures r.Err? <==> TxIndex(s.transactions, txId) < 0
    ensures r.Err? ==> r.error == NotFound
    ensures r.Ok? ==>
      var i := TxIndex(s.transactions, txId);
      var t := s.transactions[i];
      ClosedLoan(s, r.value, i, t.(returnDate := returnDate, status := TxReturned,
                                   notes := ReturnBook.ReturnNotes(t.notes, notes)))
  {
    var i := TxIndex(s.transactions, txId);
    if i < 0 then Err(NotFound)
    else
      var t := s.transactions[i];
      Ok(CloseLoanAt(s, i, t.(returnDate := returnDate, status := TxReturned,
                              notes := ReturnBook.ReturnNotes(t.notes, notes))))
  }

  lemma HandleReturnBookLedger(s: Store, txId: string, returnDate: Option<nat>, notes: string)
    requires Consistent(s.books, s.transactions)
    requires HandleReturnBook(s, txId, returnDate, notes).Ok?
    ensures var s' := HandleReturnBook(s, txId, returnDate, notes).value;
      var t := s.transactions[TxIndex(s.transactions, txId)];
      Consistent(s'.books, s'.transactions) <==> IsOpen(t) || OpenLoans(s.transactions, t.bookId) == 0
  {
    var s' := HandleReturnBook(s, txId, returnDate, notes).value;
    var i := TxIndex(s.transactions, txId);
    ClosedLoanLedger(s, s', i, s'.transactions[i]);
  }

  /** `returnBookQuick` (after the user confirmed): today's return date and
      status Returned; notes, condition and fine stay as they were. */
  function ReturnBookQuick(s: Store, txId: string, now: nat): (r: Result<Store>)
    ensures r.Err? <==> TxIndex(s.transactions, txId) < 0
    ensures r.Err? ==> r.error == NotFound
    ensures r.Ok? ==>
      var i := TxIndex(s.transactions, txId);
      ClosedLoan(s, r.value, i, s.transactions[i].(returnDate := Some(Today(now)), status := TxReturned))
  {
    var i := TxIndex(s.transactions, txId);
    if i < 0 then Err(NotFound)
    else Ok(CloseLoanAt(s, i, s.transactions[i].(returnDate := Some(Today(now)), status := TxReturned)))
  }

  /** The register's quick return is the register's form return with
      today's date and no notes. */
  lemma ReturnBookQuickIsFormReturn(s: Store, txId: string, now: nat)
    ensures ReturnBookQuick(s, txId, now) == HandleReturnBook(s, txId, Some(Today(now)), "")
  {
    var i := TxIndex(s.transactions, txId);
    if i >= 0 {
      assert ReturnBook.ReturnNotes(s.transactions[i].notes, "") == s.transactions[i].notes;
    }
  }

  lemma ReturnBookQuickLedger(s: Store, txId: string, now: nat)
    requires Consistent(s.books, s.transactions)
    requires ReturnBookQuick(s, txId, now).Ok?
    ensures var s' := ReturnBookQuick(s, txId, now).value;
      var t := s.transactions[TxIndex(s.transactions, txId)];
      Consistent(s'.books, s'.transactions) <==> IsOpen(t) || OpenLoans(s.transactions, t.bookId) == 0
  {
    var s' := ReturnBookQuick(s, txId, now).value;
    var i := TxIndex(s.transactions, txId);
    ClosedLoanLedger(s, s', i, s'.transactions[i]);
  }

  /** Two weeks, the renewal period. */
  const RenewDays: nat := 14

  /** `renewBook` (after the user confirmed): the first loan with the id is
      due 14 days later; nothing else changes, whatever its status, and an
      unknown id changes nothing. */
  function RenewBook(s: Store, txId: string): (r: Result<Store>)
    ensures r.Err? <==> TxIndex(s.transactions, txId) < 0
    ensures r.Err? ==> r.error == NotFound
    ensures r.Ok? ==>
      var i := TxIndex(s.transactions, txId);
      && r.value.books == s.books && r.value.members == s.members && r.value.users == s.users
      && |r.value.transactions| == |s.transactions|
      && r.value.transactions[i].dueDate == s.transactions[i].dueDate + RenewDays
      && r.value.transactions[i].(dueDate := s.transactions[i].dueDate) == s.transactions[i]
      && forall j :: 0 <= j < |s.transactions| && j != i ==> r.value.transactions[j] == s.transactions[j]
  {
    var i := TxIndex(s.transactions, txId);
    if i < 0 then Err(NotFound)
    else
      var t := s.transactions[i];
      Ok(s.(transactions := s.transactions[i := t.(dueDate := t.dueDate + RenewDays)]))
  }

  /** A renewal never touches the ledger invariant. */
  lemma RenewBookLedger(s: Store, txId: string)
    requires RenewBook(s, txId).Ok?
    ensures var s' := RenewBook(s, txId).value;
      Consistent(s'.books, s'.transactions) == Consistent(s.books, s.transactions)
  {
    var s' := RenewBook(s, txId).value;
    ConsistentLoansView(s.books, s.transactions, s'.transactions);
  }

  /** A renewal moves the overdue clock back by exactly 14 days: the day
      difference drops by 14 and the overdue days never grow. */
  lemma RenewalShiftsDays(s: Store, txId: string, now: nat)
    requires RenewBook(s, txId).Ok?
    ensures var i := TxIndex(s.transactions, txId);
      var due := s.transactions[i].dueDate;
      var due' := RenewBook(s, txId).value.transactions[i].dueDate;
      && ReturnBook.DaysDiff(due', now) == ReturnBook.DaysDiff(due, now) - RenewDays
      && ReturnBook.OverdueDays(due', now) <= ReturnBook.OverdueDays(due, now)
  {
    var i := TxIndex(s.transactions, txId);
    var due := s.transactions[i].dueDate;
    var d := ReturnBook.DaysDiff(due, now);
    var d' := ReturnBook.DaysDiff(due + RenewDays, now);
    assert DayMs * (d' - 1) < now - due * DayMs - RenewDays * DayMs <= DayMs * d';
    assert DayMs * (d - RenewDays - 1) < now - due * DayMs - RenewDays * DayMs <= DayMs * (d - RenewDays);
  }

  /** The register filter: the search term (ignoring case) in title, member
      name or id, the exact stored status, and the exact issue date; an
      empty filter accepts everything. */
  function RegisterMatches(t: Transaction, term: string, status: string, date: Option<nat>): bool
  {
    && SearchMatches(term, [t.bookTitle, t.memberName, t.id])
    && (status == "" || TxStatusName(t.status) == status)
    && (date.None? || t.issueDate == date.value)
  }

  /** `applyFilters`: exactly the loans the filter accepts (in stored order,
      as Filter keeps it). */
  function FilterTransactions(txs: seq<Transaction>, term: string, status: string, date: Option<nat>): (r: seq<Transaction>)
    ensures forall t :: t in r <==> t in txs && RegisterMatches(t, term, status, date)
  {
    Filter(txs, t => RegisterMatches(t, term, status, date))
  }
}
