/** The collections the pages load from browser storage, change in place and
    save back, as one object with a method per handler. Each method does its
    page's steps on the fields (look the record up, overwrite it or push a
    new one, flip the book's status) and is proved to land on the state the
    page's transition function describes, so every lemma about those
    functions holds of the object too. */
module Handlers {
  import opened Common
  import opened Entities
  import opened Ledger
  import ReturnBook
  import Transactions
  import IssueBook
  import Books
  import Members
  import Register

  /** The store a handler leaves: the new one on success, the old one when
      it refused. */
  function After(r: Result<Store>, s: Store): Store
  {
    if r.Ok? then r.value else s
  }

  function ErrorOf(r: Result<Store>): Option<Error>
  {
    if r.Ok? then None else Some(r.error)
  }

  class Library {
    var books: seq<Book>
    var members: seq<Member>
    var transactions: seq<Transaction>
    var users: seq<User>

    function Snapshot(): Store
      reads this
    {
      Store(books, members, transactions, users)
    }

    /** The collections as loaded from storage. */
    constructor (s: Store)
      ensures Snapshot() == s
    {
      books := s.books;
      members := s.members;
      transactions := s.transactions;
      users := s.users;
    }

    /** `books.find(b => b.id === id)` then `book.status = status`. */
    method SetStatus(id: string, status: BookStatus)
      modifies this
      ensures books == SetBookStatus(old(books), id, status)
      ensures members == old(members) && transactions == old(transactions) && users == old(users)
    {
      var bi := BookIndex(books, id);
      if bi >= 0 {
        books := books[bi := books[bi].(status := status)];
      }
    }

    // -------------------------------------------------------------------
    // scripts/return-book.js

    /** `handleReturnSubmit`. */
    method HandleReturnSubmit(txId: string, returnDate: Option<nat>, condition: string, notes: string,
                              fineWaived: bool, finePaid: bool, now: nat) returns (err: Option<Error>)
      modifies this
      ensures var r := ReturnBook.HandleReturnSubmit(old(Snapshot()), txId, returnDate, condition, notes,
                                                     fineWaived, finePaid, now);
        Snapshot() == After(r, old(Snapshot())) && err == ErrorOf(r)
    {
      if txId == "" || returnDate.None? {
        return Some(Validation);
      }
      var i := TxIndex(transactions, txId);
      if i < 0 {
        return Some(NotFound);
      }
      var t := transactions[i];
      var days := ReturnBook.OverdueDays(t.dueDate, now);
      var fine := t.fine;
      if days > 0 {
        fine := Some(Fine(days * ReturnBook.FinePerDay, fineWaived, finePaid, days));
      }
      transactions := transactions[i := t.(returnDate := returnDate, status := TxReturned,
                                           condition := Some(condition),
                                           notes := ReturnBook.ReturnNotes(t.notes, notes), fine := fine)];
      SetStatus(t.bookId, Available);
      err := None;
    }

    /** `quickReturn` (after the user confirmed). */
    method QuickReturn(txId: string, now: nat) returns (err: Option<Error>)
      modifies this
      ensures var r := ReturnBook.QuickReturn(old(Snapshot()), txId, now);
        Snapshot() == After(r, old(Snapshot())) && err == ErrorOf(r)
    {
      var i := TxIndex(transactions, txId);
      if i < 0 {
        return Some(NotFound);
      }
      var t := transactions[i];
      transactions := transactions[i := t.(returnDate := Some(Today(now)), status := TxReturned,
                                           condition := Some("Good"),
                                           fine := ReturnBook.LateFine(t, now, false, false))];
      SetStatus(t.bookId, Available);
      err := None;
    }

    // -------------------------------------------------------------------
    // scripts/transactions.js

    /** `handleIssueBook`. On success the ledger invariant survives exactly
      when the book was Available. */
    method HandleIssueBook(bookId: string, memberId: string, issueDate: nat, dueDate: nat, notes: string, rand: nat)
      returns (err: Option<Error>)
      requires rand < 1000000
      modifies this
      ensures var r := Transactions.HandleIssueBook(old(Snapshot()), bookId, memberId, issueDate, dueDate, notes, rand);
        Snapshot() == After(r, old(Snapshot())) && err == ErrorOf(r)
      ensures err.None? && Consistent(old(books), old(transactions)) ==>
        (Consistent(books, transactions) <==> old(books)[BookIndex(old(books), bookId)].status == Available)
    {
      var bi := BookIndex(books, bookId);
      var mi := MemberIndex(members, memberId);
      if bi < 0 || mi < 0 {
        return Some(NotFound);
      }
      var t := Transaction(Transactions.GenerateId(rand), bookId, books[bi].title, memberId, members[mi].name,
                           issueDate, dueDate, None, TxIssued, notes, None, None, None, None);
      ghost var before := Snapshot();
      transactions := transactions + [t];
      SetStatus(bookId, Issued);
      if Consistent(before.books, before.transactions) {
        Transactions.HandleIssueBookLedger(before, bookId, memberId, issueDate, dueDate, notes, rand);
      }
      err := None;
    }

    /** `handleReturnBook`. */
    method HandleReturnBook(txId: string, returnDate: Option<nat>, notes: string) returns (err: Option<Error>)
      modifies this
      ensures var r := Transactions.HandleReturnBook(old(Snapshot()), txId, returnDate, notes);
        Snapshot() == After(r, old(Snapshot())) && err == ErrorOf(r)
    {
      var i := TxIndex(transactions, txId);
      if i < 0 {
        return Some(NotFound);
      }
      var t := transactions[i];
      transactions := transactions[i := t.(returnDate := returnDate, status := TxReturned,
                                           notes := ReturnBook.ReturnNotes(t.notes, notes))];
      SetStatus(t.bookId, Available);
      err := None;
    }

    /** `returnBookQuick` (after the user confirmed). */
    method ReturnBookQuick(txId: string, now: nat) returns (err: Option<Error>)
      modifies this
      ensures var r := Transactions.ReturnBookQuick(old(Snapshot()), txId, now);
        Snapshot() == After(r, old(Snapshot())) && err == ErrorOf(r)
    {
      var i := TxIndex(transactions, txId);
      if i < 0 {
        return Some(NotFound);
      }
      var t := transactions[i];
      transactions := transactions[i := t.(returnDate := Some(Today(now)), status := TxReturned)];
      SetStatus(t.bookId, Available);
      err := None;
    }

    /** `renewBook` (after the user confirmed). The ledger invariant is left
      as it was. */
    method RenewBook(txId: string) returns (err: Option<Error>)
      modifies this
      ensures var r := Transactions.RenewBook(old(Snapshot()), txId);
        Snapshot() == After(r, old(Snapshot())) && err == ErrorOf(r)
      ensures Consistent(books, transactions) == Consistent(old(books), old(transactions))
    {
      var i := TxIndex(transactions, txId);
      if i < 0 {
        return Some(NotFound);
      }
      ghost var before := Snapshot();
      var t := transactions[i];
      transactions := transactions[i := t.(dueDate := t.dueDate + Transactions.RenewDays)];
      Transactions.RenewBookLedger(before, txId);
      err := None;
    }

    // -------------------------------------------------------------------
    // scripts/issue-book.js

    /** `handleIssueSubmit`. The ledger invariant always survives. */
    method HandleIssueSubmit(bookId: string, memberId: string, issueDate: Option<nat>, dueDate: Option<nat>,
                             priority: string, notes: string, now: nat, rand: nat) returns (err: Option<Error>)
      requires rand < 1000
      modifies this
      ensures var r := IssueBook.HandleIssueSubmit(old(Snapshot()), bookId, memberId, issueDate, dueDate,
                                                   priority, notes, now, rand);
        Snapshot() == After(r, old(Snapshot())) && err == ErrorOf(r)
      ensures Consistent(old(books), old(transactions)) ==> Consistent(books, transactions)
    {
      if bookId == "" || memberId == "" || issueDate.None? || dueDate.None? {
        return Some(Validation);
      }
      var bi := BookIndex(books, bookId);
      var mi := MemberIndex(members, memberId);
      if bi < 0 || mi < 0 {
        return Some(NotFound);
      }
      if books[bi].status != Available {
        return Some(Conflict);
      }
      ghost var before := Snapshot();
      SetStatus(bookId, Issued);
      var t := Transaction(IssueBook.GenerateTransactionId(now, rand), bookId, books[bi].title, memberId,
                           members[mi].name, issueDate.value, dueDate.value, None, TxIssued, notes, None, None,
                           Some(if priority == "" then "Normal" else priority), Some(now));
      transactions := transactions + [t];
      if Consistent(before.books, before.transactions) {
        IssueBook.HandleIssueSubmitLedger(before, bookId, memberId, issueDate, dueDate, priority, notes, now, rand);
      }
      err := None;
    }

    // -------------------------------------------------------------------
    // scripts/books.js and scripts/members.js

    /** `handleBookSubmit`. */
    method HandleBookSubmit(editId: string, form: Books.BookForm, rand: nat, now: nat)
      requires rand < 100000
      modifies this
      ensures books == Books.HandleBookSubmit(old(books), editId, form, rand, now)
      ensures members == old(members) && transactions == old(transactions) && users == old(users)
    {
      if editId != "" {
        var i := BookIndex(books, editId);
        if i >= 0 {
          books := books[i := Books.ApplyForm(books[i], form)];
        }
      } else {
        var b := Book(Books.GenerateId("B", rand), "", "", "", "", "", "", "", Available, Today(now));
        books := books + [Books.ApplyForm(b, form)];
      }
    }

    /** `deleteBook` (after the user confirmed). */
    method DeleteBook(id: string)
      modifies this
      ensures books == Books.DeleteBook(old(books), id)
      ensures members == old(members) && transactions == old(transactions) && users == old(users)
      ensures Consistent(old(books), old(transactions)) ==>
        (Consistent(books, transactions) <==> OpenLoans(transactions, id) == 0)
    {
      ghost var before := books;
      books := Books.DeleteBook(books, id);
      if Consistent(before, transactions) {
        Books.DeleteBookLedger(before, transactions, id);
      }
    }

    /** `handleMemberSubmit`. */
    method HandleMemberSubmit(editId: string, form: Members.MemberForm, rand: nat, now: nat)
      requires rand < 100000
      modifies this
      ensures members == Members.HandleMemberSubmit(old(members), editId, form, rand, now)
      ensures books == old(books) && transactions == old(transactions) && users == old(users)
    {
      if editId != "" {
        var i := MemberIndex(members, editId);
        if i >= 0 {
          members := members[i := Members.ApplyForm(members[i], form)];
        }
      } else {
        var m := Member(Books.GenerateId("M", rand), "", "", "", "", Active, "", Today(now));
        members := members + [Members.ApplyForm(m, form)];
      }
    }

    /** `deleteMember` (after the user confirmed). */
    method DeleteMember(id: string)
      modifies this
      ensures members == Members.DeleteMember(old(members), id)
      ensures books == old(books) && transactions == old(transactions) && users == old(users)
    {
      members := Members.DeleteMember(members, id);
    }

    // -------------------------------------------------------------------
    // scripts/register.js

    /** The sign-up submit handler with `addToMembers`. */
    method SubmitRegistration(f: Register.RegistrationForm, now: nat, rand: nat) returns (err: Option<Error>)
      requires rand < 1000
      modifies this
      ensures var r := Register.Register(old(Snapshot()), f, now, rand);
        Snapshot() == After(r, old(Snapshot())) && err == ErrorOf(r)
    {
      ghost var before := Snapshot();
      if Register.ValidateForm(f).Some? {
        assert Register.Register(before, f, now, rand) == Err(Validation);
        return Some(Validation);
      }
      if Register.Taken(users, f.username, f.email) {
        assert Register.Register(before, f, now, rand) == Err(Duplicate);
        return Some(Duplicate);
      }
      var u := Register.NewUser(f, now, rand);
      ghost var r := Register.Register(before, f, now, rand);
      assert r.Ok? && r.value.users == before.users + [u] && r.value.books == before.books;
      users := users + [u];
      if f.userType != "Admin" {
        members := members + [Register.MemberFromUser(u, now)];
      }
      assert r.value.members == members && r.value.transactions == transactions;
      err := None;
    }
  }
}
