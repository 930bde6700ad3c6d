/** The loan ledger: look-ups by id over the stored collections, the book
    status update every issue and return performs, and the invariant that ties
    books to their open loans, with the facts each handler's proof builds on. */
module Ledger {
  import opened Common
  import opened Entities

  /** `books.findIndex((b) => b.id === id)`. */
  function BookIndex(books: seq<Book>, id: string): (i: int)
    ensures -1 <= i < |books|
    ensures 0 <= i ==> books[i].id == id && forall j :: 0 <= j < i ==> books[j].id != id
    ensures i < 0 ==> forall j :: 0 <= j < |books| ==> books[j].id != id
  {
    FirstIndex(books, (b: Book) => b.id == id)
  }

  /** `members.findIndex((m) => m.id === id)`. */
  function MemberIndex(members: seq<Member>, id: string): (i: int)
    ensures -1 <= i < |members|
    ensures 0 <= i ==> members[i].id == id && forall j :: 0 <= j < i ==> members[j].id != id
    ensures i < 0 ==> forall j :: 0 <= j < |members| ==> members[j].id != id
  {
    FirstIndex(members, (m: Member) => m.id == id)
  }

  /** `transactions.findIndex((t) => t.id === id)`. */
  function TxIndex(txs: seq<Transaction>, id: string): (i: int)
    ensures -1 <= i < |txs|
    ensures 0 <= i ==> txs[i].id == id && forall j :: 0 <= j < i ==> txs[j].id != id
    ensures i < 0 ==> forall j :: 0 <= j < |txs| ==> txs[j].id != id
  {
    FirstIndex(txs, (t: Transaction) => t.id == id)
  }

  /** `const book = books.find((b) => b.id === id); if (book) book.status = s`:
      the first book with that id takes the status, every other entry stays. */
  function SetBookStatus(books: seq<Book>, id: string, status: BookStatus): (r: seq<Book>)
    ensures |r| == |books|
    ensures forall j :: 0 <= j < |books| ==> r[j].id == books[j].id
    ensures forall j :: 0 <= j < |books| && j != BookIndex(books, id) ==> r[j] == books[j]
    ensures BookIndex(books, id) >= 0 ==>
      r[BookIndex(books, id)] == books[BookIndex(books, id)].(status := status)
  {
    var i := BookIndex(books, id);
    if i < 0 then books else books[i := books[i].(status := status)]
  }

  /** The number of open loans (stored status Issued or Overdue) on a book id. */
  function OpenLoans(txs: seq<Transaction>, bookId: string): nat
  {
    Count(txs, (t: Transaction) => IsOpen(t) && t.bookId == bookId)
  }

  predicate UniqueBookIds(books: seq<Book>)
  {
    forall i, j :: 0 <= i < j < |books| ==> books[i].id != books[j].id
  }

  /** The ledger invariant: book ids are unique; a book is Issued exactly when
      one open loan references it and Available exactly when none does; and
      every open loan references a book of the catalog. */
  predicate Consistent(books: seq<Book>, txs: seq<Transaction>)
  {
    && UniqueBookIds(books)
    && (forall i :: 0 <= i < |books| ==>
          OpenLoans(txs, books[i].id) == if books[i].status == Issued then 1 else 0)
    && (forall j :: 0 <= j < |txs| && IsOpen(txs[j]) ==> BookIndex(books, txs[j].bookId) >= 0)
  }

  // ---------------------------------------------------------------------
  // Facts the handlers' proofs are built from

  /** An open loan is counted on its book. */
  lemma {:induction false} OpenLoansUpdate(txs: seq<Transaction>, i: nat, t: Transaction, id: string)
    requires i < |txs|
    ensures OpenLoans(txs[i := t], id) + (if IsOpen(txs[i]) && txs[i].bookId == id then 1 else 0)
         == OpenLoans(txs, id) + (if IsOpen(t) && t.bookId == id then 1 else 0)
  {
    CountUpdate(txs, i, t, (u: Transaction) => IsOpen(u) && u.bookId == id);
  }

  lemma {:induction false} OpenLoansAppend(txs: seq<Transaction>, t: Transaction, id: string)
    ensures OpenLoans(txs + [t], id) == OpenLoans(txs, id) + (if IsOpen(t) && t.bookId == id then 1 else 0)
  {
    CountAppend(txs, t, (u: Transaction) => IsOpen(u) && u.bookId == id);
  }

  /** A book with an open loan is in the catalog. */
  lemma {:induction false} OpenLoanHasBook(books: seq<Book>, txs: seq<Transaction>, id: string)
    requires Consistent(books, txs) && OpenLoans(txs, id) > 0
    ensures BookIndex(books, id) >= 0
  {
    CountWitness(txs, (u: Transaction) => IsOpen(u) && u.bookId == id);
  }

  /** Setting a book's status and then setting it back to what it was gives
      the catalog back unchanged. */
  lemma SetBookStatusRestore(books: seq<Book>, id: string, status: BookStatus)
    ensures var i := BookIndex(books, id);
      i >= 0 ==> SetBookStatus(SetBookStatus(books, id, status), id, books[i].status) == books
  {
    var i := BookIndex(books, id);
    if i >= 0 {
      var b' := SetBookStatus(books, id, status);
      SameIdsSameIndex(books, b');
      assert SetBookStatus(b', id, books[i].status)[i] == books[i];
    }
  }

  /** Two catalogs with the same ids position by position answer every
      look-up alike. */
  lemma SameIdsSameIndex(books: seq<Book>, books': seq<Book>)
    requires |books| == |books'|
    requires forall j :: 0 <= j < |books| ==> books'[j].id == books[j].id
    ensures forall id :: BookIndex(books', id) == BookIndex(books, id)
  {
    forall id ensures BookIndex(books', id) == BookIndex(books, id) {
      var i, i' := BookIndex(books, id), BookIndex(books', id);
      if i >= 0 && i' >= 0 {
        assert !(i < i') && !(i' < i);
      }
    }
  }

  /** The invariant reads only the ids and statuses of the books. */
  lemma {:induction false} ConsistentBooksView(books: seq<Book>, books': seq<Book>, txs: seq<Transaction>)
    requires |books| == |books'|
    requires forall j :: 0 <= j < |books| ==> books'[j].id == books[j].id && books'[j].status == books[j].status
    ensures Consistent(books', txs) == Consistent(books, txs)
  {
    SameIdsSameIndex(books, books');
  }

  /** The invariant reads only the status and book id of each loan. */
  lemma {:induction false} ConsistentLoansView(books: seq<Book>, txs: seq<Transaction>, txs': seq<Transaction>)
    requires |txs| == |txs'|
    requires forall j :: 0 <= j < |txs| ==> IsOpen(txs'[j]) == IsOpen(txs[j]) && txs'[j].bookId == txs[j].bookId
    ensures Consistent(books, txs') == Consistent(books, txs)
  {
    forall id ensures OpenLoans(txs', id) == OpenLoans(txs, id) {
      CountSamePositions(txs', txs, (u: Transaction) => IsOpen(u) && u.bookId == id);
    }
  }

  /** Opening a loan on a catalog book and marking the book Issued keeps the
      invariant exactly when the book was Available. */
  lemma {:induction false} OpenLoan(books: seq<Book>, txs: seq<Transaction>, t: Transaction)
    requires Consistent(books, txs)
    requires IsOpen(t) && BookIndex(books, t.bookId) >= 0
    ensures Consistent(SetBookStatus(books, t.bookId, Issued), txs + [t])
        <==> books[BookIndex(books, t.bookId)].status == Available
  {
    var x := t.bookId;
    var bi := BookIndex(books, x);
    var books', txs' := SetBookStatus(books, x, Issued), txs + [t];
    SameIdsSameIndex(books, books');
    forall y ensures OpenLoans(txs', y) == OpenLoans(txs, y) + (if x == y then 1 else 0) {
      OpenLoansAppend(txs, t, y);
    }
    if books[bi].status == Available {
      forall j | 0 <= j < |books'|
        ensures OpenLoans(txs', books'[j].id) == if books'[j].status == Issued then 1 else 0
      {
        if j != bi {
          assert books'[j] == books[j] && books[j].id != x;
        }
      }
      forall j | 0 <= j < |txs'| && IsOpen(txs'[j]) ensures BookIndex(books', txs'[j].bookId) >= 0 {
        if j < |txs| { assert txs'[j] == txs[j]; }
      }
    } else {
      assert books'[bi].status == Issued && OpenLoans(txs', x) == 2;
    }
  }

  /** Closing loan i (a return) and marking its book Available keeps the
      invariant exactly when the loan was still open, or its book has no open
      loan at all. Re-returning a closed loan whose book was issued again
      therefore breaks it. */
  lemma {:induction false} CloseLoan(books: seq<Book>, txs: seq<Transaction>, i: nat, t: Transaction)
    requires Consistent(books, txs)
    requires i < |txs| && !IsOpen(t) && t.bookId == txs[i].bookId
    ensures Consistent(SetBookStatus(books, t.bookId, Available), txs[i := t])
        <==> IsOpen(txs[i]) || OpenLoans(txs, t.bookId) == 0
  {
    var x := t.bookId;
    var bi := BookIndex(books, x);
    var books', txs' := SetBookStatus(books, x, Available), txs[i := t];
    SameIdsSameIndex(books, books');
    forall y ensures OpenLoans(txs', y) + (if IsOpen(txs[i]) && x == y then 1 else 0) == OpenLoans(txs, y) {
      OpenLoansUpdate(txs, i, t, y);
    }
    if IsOpen(txs[i]) {
      assert bi >= 0;
      forall j | 0 <= j < |books'|
        ensures OpenLoans(txs', books'[j].id) == if books'[j].status == Issued then 1 else 0
      {
        if j != bi {
          assert books'[j] == books[j] && books[j].id != x;
        }
      }
      forall j | 0 <= j < |txs'| && IsOpen(txs'[j]) ensures BookIndex(books', txs'[j].bookId) >= 0 {
        assert j != i && txs'[j] == txs[j];
      }
    } else if OpenLoans(txs, x) == 0 {
      if bi >= 0 {
        assert books[bi].status == Available;
        assert books' == books;
      }
      forall j | 0 <= j < |txs'| && IsOpen(txs'[j]) ensures BookIndex(books', txs'[j].bookId) >= 0 {
        assert j != i && txs'[j] == txs[j];
      }
    } else {
      OpenLoanHasBook(books, txs, x);
      assert books'[bi].status == Available && OpenLoans(txs', x) > 0;
    }
  }

  /** Marking a book Available without closing a loan (a catalog edit) keeps
      the invariant exactly when the book has no open loan. */
  lemma {:induction false} ReleaseBook(books: seq<Book>, txs: seq<Transaction>, id: string)
    requires Consistent(books, txs)
    ensures Consistent(SetBookStatus(books, id, Available), txs) <==> OpenLoans(txs, id) == 0
  {
    var bi := BookIndex(books, id);
    var books' := SetBookStatus(books, id, Available);
    SameIdsSameIndex(books, books');
    if OpenLoans(txs, id) == 0 {
      if bi >= 0 {
        assert books[bi].status == Available;
        assert books' == books;
      }
    } else {
      OpenLoanHasBook(books, txs, id);
      assert books'[bi].status == Available;
    }
  }

  // ---------------------------------------------------------------------
  // The two shapes every loan handler's store update takes

  /** Loan i was replaced by t, every other loan kept, the first book with the
      loan's book id marked Available, members and users untouched. */
  predicate ClosedLoan(s: Store, s': Store, i: int, t: Transaction)
  {
    && 0 <= i < |s.transactions| && |s'.transactions| == |s.transactions|
    && s'.transactions[i] == t
    && (forall j :: 0 <= j < |s.transactions| && j != i ==> s'.transactions[j] == s.transactions[j])
    && s'.books == SetBookStatus(s.books, s.transactions[i].bookId, Available)
    && s'.members == s.members && s'.users == s.users
  }

  /** Loan t was appended after every stored loan, the first book with its
      book id marked Issued, members and users untouched. */
  predicate OpenedLoan(s: Store, s': Store, t: Transaction)
  {
    && |s'.transactions| == |s.transactions| + 1
    && (forall j :: 0 <= j < |s.transactions| ==> s'.transactions[j] == s.transactions[j])
    && s'.transactions[|s.transactions|] == t
    && s'.books == SetBookStatus(s.books, t.bookId, Issued)
    && s'.members == s.members && s'.users == s.users
  }

  /** Writes loan i back as t and releases its book: the body shared by every
      return handler. */
  function CloseLoanAt(s: Store, i: nat, t: Transaction): (s': Store)
    requires i < |s.transactions|
    ensures ClosedLoan(s, s', i, t)
  {
    s.(transactions := s.transactions[i := t],
       books := SetBookStatus(s.books, s.transactions[i].bookId, Available))
  }

  /** Pushes loan t and marks its book Issued: the body shared by both issue
      handlers. */
  function OpenLoanWith(s: Store, t: Transaction): (s': Store)
    ensures OpenedLoan(s, s', t)
  {
    s.(transactions := s.transactions + [t], books := SetBookStatus(s.books, t.bookId, Issued))
  }

  /** What a return does to the invariant, for any store update of that shape. */
  lemma ClosedLoanLedger(s: Store, s': Store, i: int, t: Transaction)
    requires Consistent(s.books, s.transactions) && ClosedLoan(s, s', i, t)
    requires !IsOpen(t) && t.bookId == s.transactions[i].bookId
    ensures Consistent(s'.books, s'.transactions)
        <==> IsOpen(s.transactions[i]) || OpenLoans(s.transactions, t.bookId) == 0
  {
    assert s'.transactions == s.transactions[i := t];
    CloseLoan(s.books, s.transactions, i, t);
  }

  /** What an issue does to the invariant, for any store update of that shape. */
  lemma OpenedLoanLedger(s: Store, s': Store, t: Transaction)
    requires Consistent(s.books, s.transactions) && OpenedLoan(s, s', t)
    requires IsOpen(t) && BookIndex(s.books, t.bookId) >= 0
    ensures Consistent(s'.books, s'.transactions)
        <==> s.books[BookIndex(s.books, t.bookId)].status == Available
  {
    assert s'.transactions == s.transactions + [t];
    OpenLoan(s.books, s.transactions, t);
  }

  /** Opening a loan on an Available book and then closing that same loan
      gives the catalog back as it was. */
  lemma OpenThenCloseRestores(s: Store, s1: Store, t: Transaction, s2: Store, t2: Transaction)
    requires OpenedLoan(s, s1, t) && ClosedLoan(s1, s2, |s.transactions|, t2)
    requires BookIndex(s.books, t.bookId) >= 0 && s.books[BookIndex(s.books, t.bookId)].status == Available
    ensures s2.books == s.books && s2.members == s.members && s2.users == s.users
  {
    assert s1.transactions[|s.transactions|].bookId == t.bookId;
    SetBookStatusRestore(s.books, t.bookId, Issued);
  }
}
