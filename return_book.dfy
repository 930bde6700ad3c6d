/** The return desk (scripts/return-book.js): the overdue-day arithmetic, the
    due-state badge, the two return handlers and the lists the page shows. */
module ReturnBook {
  import opened Common
  import opened Entities
  import opened Ledger

  /** The fine rate: one currency unit per overdue day. */
  const FinePerDay: int := 1

  /** `Math.ceil((today - new Date(dueDate)) / (1000 * 60 * 60 * 24))`: the
      days from the due date's midnight to now, rounded up. */
  function DaysDiff(dueDate: nat, now: nat): (d: int)
    ensures DayMs * (d - 1) < now - dueDate * DayMs <= DayMs * d
  {
    CeilDiv(now - dueDate * DayMs, DayMs)
  }

  /** `calculateDaysOverdue`: never negative, zero until the due date's
      midnight has passed, and afterwards the count of started days since. */
  function OverdueDays(dueDate: nat, now: nat): (d: nat)
    ensures now <= dueDate * DayMs ==> d == 0
    ensures now > dueDate * DayMs ==> d >= 1 && DayMs * (d - 1) < now - dueDate * DayMs <= DayMs * d
  {
    var x := DaysDiff(dueDate, now);
    if x > 0 then x else 0
  }

  /** The amount `showFineCalculation` and the return handlers compute. */
  function FineAmount(days: nat): (amount: int)
    ensures amount >= 0 && (amount == 0 <==> days == 0)
  {
    days * FinePerDay
  }

  /** The status badge of a selected loan. */
  datatype DueState =
    | Overdue(days: nat, fine: int)   // with the fine preview
    | DueSoon(daysLeft: nat)
    | OnLoan(daysLeft: nat)           // shown as "Issued"

  /** The classification in `displaySelectedTransaction`: Overdue exactly
      when there are overdue days, with their fine; otherwise the whole days
      left before the due date's midnight, "Due Soon" when at most two. */
  function Classify(dueDate: nat, now: nat): (c: DueState)
    ensures c.Overdue? <==> OverdueDays(dueDate, now) > 0
    ensures c.Overdue? ==> c.days == OverdueDays(dueDate, now) && c.fine == FineAmount(c.days)
    ensures !c.Overdue? ==> now + DayMs * c.daysLeft <= dueDate * DayMs < now + DayMs * (c.daysLeft + 1)
    ensures c.DueSoon? <==> !c.Overdue? && c.daysLeft <= 2
  {
    var d := DaysDiff(dueDate, now);
    if d > 0 then Overdue(d, FineAmount(d))
    else if d > -3 then DueSoon(-d)
    else OnLoan(-d)
  }

  /** `(transaction.notes || "") + (notes ? " | Return: " + notes : "")`. */
  function ReturnNotes(prior: string, notes: string): (r: string)
    ensures prior <= r
    ensures notes == [] ==> r == prior
    ensures notes != [] ==> r[|prior|..] == " | Return: " + notes
  {
    prior + (if notes == [] then "" else " | Return: " + notes)
  }

  /** The fine a return stores: a new record when the loan is overdue now,
      otherwise whatever the loan already carried. */
  function LateFine(t: Transaction, now: nat, waived: bool, paid: bool): (f: Option<Fine>)
    ensures OverdueDays(t.dueDate, now) > 0 ==>
      f == Some(Fine(FineAmount(OverdueDays(t.dueDate, now)), waived, paid, OverdueDays(t.dueDate, now)))
    ensures OverdueDays(t.dueDate, now) == 0 ==> f == t.fine
  {
    var d := OverdueDays(t.dueDate, now);
    if d > 0 then Some(Fine(FineAmount(d), waived, paid, d)) else t.fine
  }

  /** `handleReturnSubmit`. An empty id or date is refused, an unknown id is
      reported; otherwise the first loan with the id is marked Returned with
      the entered date, condition and appended notes, a fine is attached when
      it is overdue by the clock (not by the entered date), and its book is
      released. The loan's current status is not checked. */
  function HandleReturnSubmit(s: Store, txId: string, returnDate: Option<nat>, condition: string,
                              notes: string, fineWaived: bool, finePaid: bool, now: nat): (r: Result<Store>)
    ensures txId == "" || returnDate.None? ==> r == Err(Validation)
    ensures txId != "" && returnDate.Some? ==> (r == Err(NotFound) <==> TxIndex(s.transactions, txId) < 0)
    ensures r.Err? ==> r.error == Validation || r.error == NotFound
    ensures r.Ok? <==> txId != "" && returnDate.Some? && TxIndex(s.transactions, txId) >= 0
    ensures r.Ok? ==>
      var i := TxIndex(s.transactions, txId);
      var t := s.transactions[i];
      var d := OverdueDays(t.dueDate, now);
      && i >= 0
      && ClosedLoan(s, r.value, i, t.(returnDate := returnDate, status := TxReturned,
                                      condition := Some(condition), notes := ReturnNotes(t.notes, notes),
                                      fine := if d > 0 then Some(Fine(d * FinePerDay, fineWaived, finePaid, d)) else t.fine))
  {
    if txId == "" || returnDate.None? then Err(Validation)
    else
      var i := TxIndex(s.transactions, txId);
      if i < 0 then Err(NotFound)
      else
        var t := s.transactions[i];
        Ok(CloseLoanAt(s, i, t.(returnDate := returnDate, status := TxReturned, condition := Some(condition),
                                notes := ReturnNotes(t.notes, notes), fine := LateFine(t, now, fineWaived, finePaid))))
  }

  /** `quickReturn` (after the user confirmed): today's date, condition
      "Good", a fine neither waived nor paid, notes untouched. */
  function QuickReturn(s: Store, txId: string, now: nat): (r: Result<Store>)
    ensures r.Err? <==> TxIndex(s.transactions, txId) < 0
    ensures r.Err? ==> r.error == NotFound
  {
    var i := TxIndex(s.transactions, txId);
    if i < 0 then Err(NotFound)
    else
      var t := s.transactions[i];
      Ok(CloseLoanAt(s, i, t.(returnDate := Some(Today(now)), status := TxReturned, condition := Some("Good"),
                              fine := LateFine(t, now, false, false))))
  }

  /** A quick return is the form return with the defaults it fills in. */
  lemma QuickReturnIsSubmit(s: Store, txId: string, now: nat)
    requires txId != ""
    ensures QuickReturn(s, txId, now) == HandleReturnSubmit(s, txId, Some(Today(now)), "Good", "", false, false, now)
  {
    var i := TxIndex(s.transactions, txId);
    if i >= 0 {
      assert ReturnNotes(s.transactions[i].notes, "") == s.transactions[i].notes;
    }
  }

  /** A form return keeps the ledger invariant exactly when the loan was
      still open or its book has no open loan: returning an old loan again
      after its book was issued anew releases the book under the new loan. */
  lemma HandleReturnSubmitLedger(s: Store, txId: string, returnDate: Option<nat>, condition: string,
                                 notes: string, fineWaived: bool, finePaid: bool, now: nat)
    requires Consistent(s.books, s.transactions)
    requires HandleReturnSubmit(s, txId, returnDate, condition, notes, fineWaived, finePaid, now).Ok?
    ensures var s' := HandleReturnSubmit(s, txId, returnDate, condition, notes, fineWaived, finePaid, now).value;
      var t := s.transactions[TxIndex(s.transactions, txId)];
      Consistent(s'.books, s'.transactions) <==> IsOpen(t) || OpenLoans(s.transactions, t.bookId) == 0
  {
    var s' := HandleReturnSubmit(s, txId, returnDate, condition, notes, fineWaived, finePaid, now).value;
    var i := TxIndex(s.transactions, txId);
    ClosedLoanLedger(s, s', i, s'.transactions[i]);
  }

  /** The same for a quick return. */
  lemma QuickReturnLedger(s: Store, txId: string, now: nat)
    requires Consistent(s.books, s.transactions)
    requires QuickReturn(s, txId, now).Ok?
    ensures var s' := QuickReturn(s, txId, now).value;
      var t := s.transactions[TxIndex(s.transactions, txId)];
      Consistent(s'.books, s'.transactions) <==> IsOpen(t) || OpenLoans(s.transactions, t.bookId) == 0
  {
    var s' := QuickReturn(s, txId, now).value;
    var i := TxIndex(s.transactions, txId);
    ClosedLoanLedger(s, s', i, s'.transactions[i]);
  }

  // ---------------------------------------------------------------------
  // The lists the page shows

  /** `loadIssuedTransactions`: the open loans, in stored order. */
  function IssuedTransactions(txs: seq<Transaction>): (r: seq<Transaction>)
    ensures forall t :: t in r <==> t in txs && IsOpen(t)
  {
    Filter(txs, IsOpen)
  }

  function TransactionMatches(term: string, t: Transaction): bool
  {
    SearchMatches(term, [t.id, t.bookTitle, t.memberName])
  }

  /** The dropdown search: an open loan is listed exactly when the term
      occurs, ignoring case, in its id, book title or member name. */
  function SearchIssued(issued: seq<Transaction>, term: string): (r: seq<Transaction>)
    ensures forall t :: t in r <==> t in issued && TransactionMatches(term, t)
  {
    Filter(issued, t => TransactionMatches(term, t))
  }

  /** The search tab: below two characters the results are cleared (None),
      otherwise the same matching as the dropdown. */
  function GlobalSearch(issued: seq<Transaction>, term: string): (r: Option<seq<Transaction>>)
    ensures r.None? <==> |term| < 2
    ensures r.Some? ==> forall t :: t in r.value <==> t in issued && TransactionMatches(term, t)
  {
    if |Lower(term)| < 2 then None else Some(SearchIssued(issued, term))
  }

  /** The barcode test: equality with, or occurrence in, the ISBN or the id
      (case-sensitive); equality is a special case of occurrence. */
  function BarcodeHit(b: Book, code: string): (hit: bool)
    ensures hit ==> (exists i: nat :: OccursAt(b.isbn, code, i)) || (exists i: nat :: OccursAt(b.id, code, i))
    ensures (exists i: nat :: OccursAt(b.isbn, code, i)) ==> hit
    ensures (exists i: nat :: OccursAt(b.id, code, i)) ==> hit
  {
    IncludesAt(b.isbn, code);
    IncludesAt(b.id, code);
    b.isbn == code || b.id == code || Includes(b.isbn, code) || Includes(b.id, code)
  }

  /** The scan tab: the trimmed input must have three characters; then every
      catalog book it hits is listed, in catalog order. */
  function BarcodeMatches(books: seq<Book>, input: string): (r: Option<seq<Book>>)
    ensures r.None? <==> |Trim(input)| < 3
    ensures r.Some? ==> forall b :: b in r.value <==> b in books && BarcodeHit(b, Trim(input))
  {
    var code := Trim(input);
    if |code| < 3 then None else Some(Filter(books, b => BarcodeHit(b, code)))
  }

  /** The open loan shown beside a scanned book: the first open loan on it. */
  function OpenLoanOf(txs: seq<Transaction>, bookId: string): (r: Option<Transaction>)
    ensures r.Some? ==> r.value in txs && IsOpen(r.value) && r.value.bookId == bookId
    ensures r.None? ==> forall j :: 0 <= j < |txs| ==> !(IsOpen(txs[j]) && txs[j].bookId == bookId)
  {
    var j := FirstIndex(txs, (t: Transaction) => IsOpen(t) && t.bookId == bookId);
    if j < 0 then None else Some(txs[j])
  }

  /** Under the ledger invariant a scanned catalog book shows a loan exactly
      when its status is Issued. */
  lemma OpenLoanOfLedger(books: seq<Book>, txs: seq<Transaction>, k: nat)
    requires Consistent(books, txs) && k < |books|
    ensures OpenLoanOf(txs, books[k].id).Some? <==> books[k].status == Issued
  {
    var p := (t: Transaction) => IsOpen(t) && t.bookId == books[k].id;
    if OpenLoanOf(txs, books[k].id).None? {
      CountNone(txs, p);
    } else {
      var j := FirstIndex(txs, p);
      CountIsFilterLength(txs, p);
      assert txs[j] in Filter(txs, p);
    }
  }

  function ReturnKey(t: Transaction): int
  {
    match t.returnDate
    case Some(d) => d
    case None => -1
  }

  predicate IsReturned(t: Transaction)
  {
    t.status == TxReturned
  }

  /** `loadRecentReturns`: at most five returned loans, latest return date
      first. */
  function RecentReturns(txs: seq<Transaction>): (r: seq<Transaction>)
    ensures |r| <= 5 && SortedDesc(r, ReturnKey)
    ensures multiset(r) <= multiset(Filter(txs, IsReturned))
    ensures forall t :: t in r ==> t in txs && IsReturned(t)
  {
    SortedPrefix(Filter(txs, IsReturned), ReturnKey, 5);
    Take(SortDesc(Filter(txs, IsReturned), ReturnKey), 5)
  }

  /** They are the latest: a returned loan left out is no later than the
      fifth one shown. */
  lemma RecentReturnsAreLatest(txs: seq<Transaction>)
    ensures var r := RecentReturns(txs);
      forall t :: t in txs && IsReturned(t) ==> t in r || (|r| == 5 && ReturnKey(t) <= ReturnKey(r[4]))
  {
    TopOfSorted(Filter(txs, IsReturned), ReturnKey, 5);
  }
}
