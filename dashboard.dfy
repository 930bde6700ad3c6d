/** The dashboard (scripts/dashboard.js): the four counters, the latest loans,
    the most borrowed books and the overdue list. */
module Dashboard {
  import opened Common
  import opened Entities
  import opened Ledger

  predicate StoredIssued(t: Transaction) { t.status == TxIssued }

  predicate StoredOverdue(t: Transaction) { t.status == TxOverdue }

  predicate ActiveMember(m: Member) { m.status == Active }

  predicate OnLoan(b: Book) { b.status == Issued }

  /** The four counters. */
  datatype Stats = Stats(totalBooks: nat, activeMembers: nat, issuedLoans: nat, overdueLoans: nat)

  /** `loadDashboardData`: all books, Active members, and loans by stored
      status Issued and Overdue. */
  function DashboardStats(s: Store): (st: Stats)
    ensures st.totalBooks == |s.books|
    ensures st.activeMembers == |Filter(s.members, ActiveMember)|
    ensures st.issuedLoans == |Filter(s.transactions, StoredIssued)|
    ensures st.overdueLoans == |Filter(s.transactions, StoredOverdue)|
  {
    CountIsFilterLength(s.members, ActiveMember);
    CountIsFilterLength(s.transactions, StoredIssued);
    CountIsFilterLength(s.transactions, StoredOverdue);
    Stats(|s.books|, Count(s.members, ActiveMember), Count(s.transactions, StoredIssued),
          Count(s.transactions, StoredOverdue))
  }

  // ---------------------------------------------------------------------
  // The counters agree with the catalog

  /** The open loans are the Issued ones and the Overdue ones. */
  lemma {:induction false} OpenSplits(txs: seq<Transaction>)
    ensures Count(txs, IsOpen) == Count(txs, StoredIssued) + Count(txs, StoredOverdue)
    decreases |txs|
  {
    if txs != [] {
      OpenSplits(txs[..|txs| - 1]);
    }
  }

  /** How many catalog entries carry an id. */
  function IdCount(books: seq<Book>, id: string): nat
  {
    Count(books, (b: Book) => b.id == id)
  }

  /** With unique ids, an id in the catalog is carried once. */
  lemma {:induction false} IdCountUnique(books: seq<Book>, id: string, k: nat)
    requires UniqueBookIds(books) && k < |books| && books[k].id == id
    ensures IdCount(books, id) == 1
    decreases |books|
  {
    var n := |books| - 1;
    var init := books[..n];
    assert forall j :: 0 <= j < n ==> init[j] == books[j];
    if k == n {
      CountNone(init, (b: Book) => b.id == id);
    } else {
      IdCountUnique(init, id, k);
    }
  }

  /** The open loans counted book by book over the catalog. */
  function LoansByBook(books: seq<Book>, txs: seq<Transaction>): nat
  {
    if books == [] then 0 else LoansByBook(books[..|books| - 1], txs) + OpenLoans(txs, books[|books| - 1].id)
  }

  lemma {:induction false} LoansByBookAppend(books: seq<Book>, txs: seq<Transaction>, t: Transaction)
    ensures LoansByBook(books, txs + [t]) == LoansByBook(books, txs) + (if IsOpen(t) then IdCount(books, t.bookId) else 0)
    decreases |books|
  {
    if books != [] {
      var n := |books| - 1;
      LoansByBookAppend(books[..n], txs, t);
      OpenLoansAppend(txs, t, books[n].id);
    }
  }

  /** When every open loan's book is in a catalog with unique ids, counting
      loans book by book counts each open loan once. */
  lemma {:induction false} LoansByBookCountsOpen(books: seq<Book>, txs: seq<Transaction>)
    requires UniqueBookIds(books)
    requires forall j :: 0 <= j < |txs| && IsOpen(txs[j]) ==> BookIndex(books, txs[j].bookId) >= 0
    ensures LoansByBook(books, txs) == Count(txs, IsOpen)
    decreases |txs|
  {
    if txs == [] {
      LoansByBookEmpty(books);
    } else {
      var n := |txs| - 1;
      var t := txs[n];
      assert txs == txs[..n] + [t];
      LoansByBookCountsOpen(books, txs[..n]);
      LoansByBookAppend(books, txs[..n], t);
      if IsOpen(t) {
        IdCountUnique(books, t.bookId, BookIndex(books, t.bookId));
      }
    }
  }

  lemma {:induction false} LoansByBookEmpty(books: seq<Book>)
    ensures LoansByBook(books, []) == 0
    decreases |books|
  {
    if books != [] {
      LoansByBookEmpty(books[..|books| - 1]);
    }
  }

  /** Where each book has one open loan when Issued and none when Available,
      counting book by book gives the number of Issued books. */
  lemma {:induction false} LoansByBookCountsIssued(books: seq<Book>, txs: seq<Transaction>)
    requires forall i :: 0 <= i < |books| ==> OpenLoans(txs, books[i].id) == if books[i].status == Issued then 1 else 0
    ensures LoansByBook(books, txs) == Count(books, OnLoan)
    decreases |books|
  {
    if books != [] {
      var n := |books| - 1;
      assert forall i :: 0 <= i < n ==> books[..n][i] == books[i];
      LoansByBookCountsIssued(books[..n], txs);
    }
  }

  /** While the ledger invariant holds, the dashboard's Issued and Overdue
      counters add up to the number of books marked Issued in the catalog. */
  lemma CountersMatchCatalog(s: Store)
    requires Consistent(s.books, s.transactions)
    ensures var st := DashboardStats(s);
      st.issuedLoans + st.overdueLoans == Count(s.books, OnLoan)
  {
    OpenSplits(s.transactions);
    LoansByBookCountsOpen(s.books, s.transactions);
    LoansByBookCountsIssued(s.books, s.transactions);
  }

  // ---------------------------------------------------------------------
  // Lists

  /** `transactions.slice(-5).reverse()`: the last five loans stored, the
      newest first. */
  function RecentTransactions(txs: seq<Transaction>): (r: seq<Transaction>)
    ensures |r| == Min(5, |txs|)
    ensures forall k :: 0 <= k < |r| ==> r[k] == txs[|txs| - 1 - k]
  {
    Reverse(txs[|txs| - Min(5, |txs|)..])
  }

  /** `filter(status === "Overdue").slice(0, 5)`: the first five loans with
      stored status Overdue, in stored order. */
  function OverdueList(txs: seq<Transaction>): (r: seq<Transaction>)
    ensures |r| == Min(5, |Filter(txs, StoredOverdue)|) == Min(5, Count(txs, StoredOverdue))
    ensures r == Filter(txs, StoredOverdue)[..|r|]
    ensures forall t :: t in r ==> t in txs && StoredOverdue(t)
  {
    CountIsFilterLength(txs, StoredOverdue);
    Take(Filter(txs, StoredOverdue), 5)
  }

  // ---------------------------------------------------------------------
  // Popularity

  /** The number of stored loans, of any status, on a book id. */
  function LoanCount(txs: seq<Transaction>, id: string): nat
  {
    Count(txs, (t: Transaction) => t.bookId == id)
  }

  lemma LoanCountAppend(txs: seq<Transaction>, t: Transaction, id: string)
    ensures LoanCount(txs + [t], id) == LoanCount(txs, id) + (if t.bookId == id then 1 else 0)
  {
    CountAppend(txs, t, (t: Transaction) => t.bookId == id);
  }

  /** `bookPopularity[id] || 0`. */
  function Lookup(pop: map<string, nat>, id: string): nat
  {
    if id in pop then pop[id] else 0
  }

  /** The `forEach` that counts loans per book id. */
  method CountPopularity(txs: seq<Transaction>) returns (pop: map<string, nat>)
    ensures forall id :: Lookup(pop, id) == LoanCount(txs, id)
    ensures forall id :: id in pop <==> LoanCount(txs, id) > 0
  {
    pop := map[];
    var i := 0;
    while i < |txs|
      invariant 0 <= i <= |txs|
      invariant forall id :: Lookup(pop, id) == LoanCount(txs[..i], id)
      invariant forall id :: id in pop ==> pop[id] > 0
    {
      var t := txs[i];
      assert txs[..i + 1] == txs[..i] + [t];
      forall id ensures LoanCount(txs[..i + 1], id) == LoanCount(txs[..i], id) + (if t.bookId == id then 1 else 0) {
        LoanCountAppend(txs[..i], t, id);
      }
      var next := pop[t.bookId := Lookup(pop, t.bookId) + 1];
      assert forall id :: Lookup(next, id) == Lookup(pop, id) + (if t.bookId == id then 1 else 0);
      pop := next;
      i := i + 1;
    }
    assert txs[..|txs|] == txs;
  }

  /** A book with its popularity. */
  datatype RankedBook = RankedBook(book: Book, popularity: nat)

  function PopularityKey(r: RankedBook): int { r.popularity }

  /** `books.map(book => ({ ...book, popularity }))`. */
  function Ranked(books: seq<Book>, txs: seq<Transaction>): (r: seq<RankedBook>)
    ensures |r| == |books|
    ensures forall i :: 0 <= i < |books| ==> r[i] == RankedBook(books[i], LoanCount(txs, books[i].id))
  {
    seq(|books|, i requires 0 <= i < |books| => RankedBook(books[i], LoanCount(txs, books[i].id)))
  }

  /** The five most borrowed books: ranked, sorted by popularity with ties
      in catalog order, the first five kept. */
  function TopBooks(books: seq<Book>, txs: seq<Transaction>): (top: seq<RankedBook>)
    ensures |top| == Min(5, |books|) && SortedDesc(top, PopularityKey)
    ensures multiset(top) <= multiset(Ranked(books, txs))
    ensures forall r :: r in top ==> r.book in books && r.popularity == LoanCount(txs, r.book.id)
  {
    var ranked := Ranked(books, txs);
    SortedPrefix(ranked, PopularityKey, 5);
    RankedEntries(books, txs);
    Take(SortDesc(ranked, PopularityKey), 5)
  }

  /** Every ranked entry is a catalog book with its loan count. */
  lemma RankedEntries(books: seq<Book>, txs: seq<Transaction>)
    ensures forall r :: r in Ranked(books, txs) ==> r.book in books && r.popularity == LoanCount(txs, r.book.id)
  {
    var ranked := Ranked(books, txs);
    forall r | r in ranked ensures r.book in books && r.popularity == LoanCount(txs, r.book.id) {
      var i :| 0 <= i < |ranked| && ranked[i] == r;
    }
  }

  /** `loadPopularBooks`. */
  method PopularBooks(books: seq<Book>, txs: seq<Transaction>) returns (top: seq<RankedBook>)
    ensures top == TopBooks(books, txs)
  {
    var pop := CountPopularity(txs);
    var ranked := seq(|books|, i requires 0 <= i < |books| => RankedBook(books[i], Lookup(pop, books[i].id)));
    assert ranked == Ranked(books, txs);
    top := Take(SortDesc(ranked, PopularityKey), 5);
  }

  /** No book left off the list was borrowed more often than the fifth one
      on it. */
  lemma TopBooksAreMostBorrowed(books: seq<Book>, txs: seq<Transaction>, k: nat)
    requires k < |books|
    ensures var top := TopBooks(books, txs);
      var entry := RankedBook(books[k], LoanCount(txs, books[k].id));
      entry in top || (|top| == 5 && LoanCount(txs, books[k].id) <= top[4].popularity)
  {
    var ranked := Ranked(books, txs);
    assert ranked[k] in ranked;
    TopOfSorted(ranked, PopularityKey, 5);
  }

  /** The popularity of every catalog entry, added up. */
  function PopularitySum(books: seq<Book>, txs: seq<Transaction>): nat
  {
    if books == [] then 0 else PopularitySum(books[..|books| - 1], txs) + LoanCount(txs, books[|books| - 1].id)
  }

  lemma {:induction false} PopularitySumAppend(books: seq<Book>, txs: seq<Transaction>, t: Transaction)
    ensures PopularitySum(books, txs + [t]) == PopularitySum(books, txs) + IdCount(books, t.bookId)
    decreases |books|
  {
    if books != [] {
      var n := |books| - 1;
      PopularitySumAppend(books[..n], txs, t);
      LoanCountAppend(txs, t, books[n].id);
    }
  }

  lemma {:induction false} IdCountAtMostOne(books: seq<Book>, id: string)
    requires UniqueBookIds(books)
    ensures IdCount(books, id) <= 1
  {
    if IdCount(books, id) > 0 {
      CountWitness(books, (b: Book) => b.id == id);
      var k :| 0 <= k < |books| && books[k].id == id;
      IdCountUnique(books, id, k);
    }
  }

  /** Over a catalog with unique ids, each loan adds to at most one book's
      popularity, so the popularities add up to no more than the number of
      loans. */
  lemma {:induction false} PopularitySumBound(books: seq<Book>, txs: seq<Transaction>)
    requires UniqueBookIds(books)
    ensures PopularitySum(books, txs) <= |txs|
    decreases |txs|
  {
    if txs == [] {
      PopularitySumEmpty(books);
    } else {
      var n := |txs| - 1;
      assert txs == txs[..n] + [txs[n]];
      PopularitySumBound(books, txs[..n]);
      PopularitySumAppend(books, txs[..n], txs[n]);
      IdCountAtMostOne(books, txs[n].bookId);
    }
  }

  lemma {:induction false} PopularitySumEmpty(books: seq<Book>)
    ensures PopularitySum(books, []) == 0
    decreases |books|
  {
    if books != [] {
      PopularitySumEmpty(books[..|books| - 1]);
    }
  }
}
