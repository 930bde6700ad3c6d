/** The catalog page (scripts/books.js): the add / edit form, deletion, the
    list filter and the random book ids. */
module Books {
  import opened Common
  import opened Entities
  import opened Ledger

  /** `generateId(prefix)` of the catalog (and its identical copy in
      scripts/members.js:292-294 for the roster): the prefix and the
      decimal digits of a random integer below 100000 (`rand` stands for
      `Math.floor(Math.random() * 100000)`). */
  function GenerateId(prefix: string, rand: nat): (id: string)
    requires rand < 100000
    ensures prefix <= id && |prefix| + 1 <= |id| <= |prefix| + 5
    ensures AllDigits(id[|prefix|..]) && DecimalValue(id[|prefix|..]) == rand
  {
    assert Pow10(5) == 100000 by {
      assert Pow10(2) == 100;
    }
    PrefixedIdFormat(prefix, rand);
    DecimalLength(rand, 5);
    PrefixedId(prefix, rand)
  }

  /** The fields of the book form. */
  datatype BookForm = BookForm(
    title: string,
    author: string,
    isbn: string,
    category: string,
    publisher: string,
    year: string,
    description: string)

  /** The form fields of a stored book (what `editBook` fills the form with). */
  function FormOf(b: Book): BookForm
  {
    BookForm(b.title, b.author, b.isbn, b.category, b.publisher, b.year, b.description)
  }

  /** `{ ...book, ...bookData }`: the form's fields and status Available
      over a stored book, which keeps its id and added date. */
  function ApplyForm(b: Book, f: BookForm): (r: Book)
    ensures r.id == b.id && r.addedDate == b.addedDate && r.status == Available
    ensures FormOf(r) == f
  {
    b.(title := f.title, author := f.author, isbn := f.isbn, category := f.category,
       publisher := f.publisher, year := f.year, description := f.description, status := Available)
  }

  /** `handleBookSubmit`. With an edit id, the first book with that id takes
      the form's fields and status Available, and an unknown id changes
      nothing. Without one, a book with a fresh random id, the form's
      fields, status Available and today's date is appended. No field is
      checked and the new id is not checked against the catalog. */
  function HandleBookSubmit(books: seq<Book>, editId: string, form: BookForm, rand: nat, now: nat): (r: seq<Book>)
    requires rand < 100000
    ensures editId != "" ==>
      && |r| == |books|
      && (forall j :: 0 <= j < |books| && j != BookIndex(books, editId) ==> r[j] == books[j])
      && var i := BookIndex(books, editId);
         i >= 0 ==> && r[i].id == books[i].id && r[i].addedDate == books[i].addedDate
                    && r[i].status == Available && FormOf(r[i]) == form
    ensures editId == "" ==>
      && |r| == |books| + 1 && r[..|books|] == books
      && var b := r[|books|];
         b.id == GenerateId("B", rand) && b.status == Available && b.addedDate == Today(now) && FormOf(b) == form
  {
    if editId != "" then
      var i := BookIndex(books, editId);
      if i < 0 then books else books[i := ApplyForm(books[i], form)]
    else
      books + [ApplyForm(Book(GenerateId("B", rand), "", "", "", "", "", "", "", Available, Today(now)), form)]
  }

  /** Submitting the same edit twice is submitting it once. */
  lemma EditIdempotent(books: seq<Book>, editId: string, form: BookForm, rand: nat, now: nat, rand2: nat, now2: nat)
    requires editId != "" && rand < 100000 && rand2 < 100000
    ensures var once := HandleBookSubmit(books, editId, form, rand, now);
      HandleBookSubmit(once, editId, form, rand2, now2) == once
  {
    var once := HandleBookSubmit(books, editId, form, rand, now);
    SameIdsSameIndex(books, once);
    var i := BookIndex(books, editId);
    if i >= 0 {
      assert ApplyForm(once[i], form) == once[i];
    }
  }

  /** An edit marks the book Available whatever its loans, so it keeps the
      ledger invariant exactly when the book has no open loan. */
  lemma EditBookLedger(books: seq<Book>, txs: seq<Transaction>, editId: string, form: BookForm, rand: nat, now: nat)
    requires rand < 100000 && editId != ""
    requires Consistent(books, txs)
    ensures Consistent(HandleBookSubmit(books, editId, form, rand, now), txs) <==>
      BookIndex(books, editId) < 0 || OpenLoans(txs, editId) == 0
  {
    var r := HandleBookSubmit(books, editId, form, rand, now);
    if BookIndex(books, editId) >= 0 {
      ConsistentBooksView(SetBookStatus(books, editId, Available), r, txs);
      ReleaseBook(books, txs, editId);
    } else {
      assert r == books;
    }
  }

  /** Appending an Available book keeps the ledger invariant exactly when its
      id is new to the catalog. */
  lemma {:induction false} AppendBookLedger(books: seq<Book>, txs: seq<Transaction>, nb: Book)
    requires Consistent(books, txs) && nb.status == Available
    ensures Consistent(books + [nb], txs) <==> BookIndex(books, nb.id) < 0
  {
    var r := books + [nb];
    var n := |books|;
    if BookIndex(books, nb.id) < 0 {
      forall id | BookIndex(books, id) >= 0 ensures BookIndex(r, id) >= 0 {
        assert r[BookIndex(books, id)].id == id;
      }
      if OpenLoans(txs, nb.id) > 0 {
        OpenLoanHasBook(books, txs, nb.id);
      }
      assert forall i :: 0 <= i < n ==> r[i] == books[i];
    } else {
      assert r[BookIndex(books, nb.id)].id == r[n].id;
    }
  }

  /** Adding a book keeps the ledger invariant exactly when the random id
      does not collide with a stored one. */
  lemma AddBookLedger(books: seq<Book>, txs: seq<Transaction>, form: BookForm, rand: nat, now: nat)
    requires rand < 100000
    requires Consistent(books, txs)
    ensures Consistent(HandleBookSubmit(books, "", form, rand, now), txs) <==>
      BookIndex(books, GenerateId("B", rand)) < 0
  {
    var r := HandleBookSubmit(books, "", form, rand, now);
    assert r == books + [r[|books|]];
    AppendBookLedger(books, txs, r[|books|]);
  }

  /** `deleteBook` (after the user confirmed): every book with the id goes,
      the rest keep their order. */
  function DeleteBook(books: seq<Book>, id: string): (r: seq<Book>)
    ensures forall b :: b in r <==> b in books && b.id != id
  {
    Filter(books, (b: Book) => b.id != id)
  }

  lemma DeleteBookIdempotent(books: seq<Book>, id: string)
    ensures DeleteBook(DeleteBook(books, id), id) == DeleteBook(books, id)
  {
    FilterIdempotent(books, (b: Book) => b.id != id);
  }

  /** The books that remain keep their catalog order: deleting from two
      stretches of the catalog is deleting from each in turn. */
  lemma DeleteBookKeepsOrder(front: seq<Book>, back: seq<Book>, id: string)
    ensures DeleteBook(front + back, id) == DeleteBook(front, id) + DeleteBook(back, id)
  {
    FilterAppend(front, back, (b: Book) => b.id != id);
  }

  lemma {:induction false} DeleteKeepsUnique(books: seq<Book>, id: string)
    requires UniqueBookIds(books)
    ensures UniqueBookIds(DeleteBook(books, id))
    decreases |books|
  {
    if books != [] {
      var rest := DeleteBook(books[1..], id);
      DeleteKeepsUnique(books[1..], id);
      forall x | x in rest ensures x.id != books[0].id {
        var j :| 0 <= j < |books[1..]| && books[1..][j] == x;
        assert books[j + 1] == x;
      }
      assert DeleteBook(books, id) == (if books[0].id != id then [books[0]] else []) + rest;
    }
  }

  /** Deleting a book keeps the ledger invariant exactly when no open loan
      references it: otherwise the loan is left pointing at nothing. */
  lemma DeleteBookLedger(books: seq<Book>, txs: seq<Transaction>, id: string)
    requires Consistent(books, txs)
    ensures Consistent(DeleteBook(books, id), txs) <==> OpenLoans(txs, id) == 0
  {
    var r := DeleteBook(books, id);
    var p := (t: Transaction) => IsOpen(t) && t.bookId == id;
    DeleteKeepsUnique(books, id);
    forall i | 0 <= i < |r| ensures OpenLoans(txs, r[i].id) == if r[i].status == Issued then 1 else 0 {
      assert r[i] in books;
    }
    if OpenLoans(txs, id) == 0 {
      CountIsFilterLength(txs, p);
      forall j | 0 <= j < |txs| && IsOpen(txs[j]) ensures BookIndex(r, txs[j].bookId) >= 0 {
        var k := BookIndex(books, txs[j].bookId);
        assert books[k] in r;
        var m :| 0 <= m < |r| && r[m] == books[k];
      }
    } else {
      CountWitness(txs, p);
      var j :| 0 <= j < |txs| && p(txs[j]);
    }
  }

  /** The catalog filter: the search term (ignoring case) in title, author
      or ISBN, the exact category and the exact status; an empty filter
      accepts everything. */
  function BookMatches(b: Book, term: string, category: string, status: string): bool
  {
    && SearchMatches(term, [b.title, b.author, b.isbn])
    && (category == "" || b.category == category)
    && (status == "" || BookStatusName(b.status) == status)
  }

  /** `applyFilters`: exactly the books the filter accepts. */
  function FilterBooks(books: seq<Book>, term: string, category: string, status: string): (r: seq<Book>)
    ensures forall b :: b in r <==> b in books && BookMatches(b, term, category, status)
  {
    Filter(books, b => BookMatches(b, term, category, status))
  }

  /** The status filter "Issued" shows exactly the books with an open loan,
      as long as the ledger invariant holds. */
  lemma IssuedFilterShowsLoans(books: seq<Book>, txs: seq<Transaction>, k: nat)
    requires Consistent(books, txs) && k < |books|
    ensures books[k] in FilterBooks(books, "", "", "Issued") <==> OpenLoans(txs, books[k].id) > 0
  {
    assert Lower("") == [];
  }
}
