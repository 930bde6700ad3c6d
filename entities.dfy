/** The records the scripts keep in browser storage, as values. Dates that the
    forms hold as "YYYY-MM-DD" strings are day numbers counted from
    1970-01-01 (the UTC midnight the script's `new Date(...)` parses them to);
    moments taken from the clock are millisecond timestamps. */
module Entities {
  import opened Common

  /** Milliseconds in one day: 1000 * 60 * 60 * 24. */
  const DayMs: nat := 86400000

  /** The calendar day of a clock reading: `new Date().toISOString().split("T")[0]`. */
  function Today(now: nat): nat
  {
    now / DayMs
  }

  datatype BookStatus = Available | Issued

  function BookStatusName(s: BookStatus): string
  {
    match s
    case Available => "Available"
    case Issued => "Issued"
  }

  /** A catalog entry (`library_books`). The form keeps every text field as a
      string, the year included. */
  datatype Book = Book(
    id: string,
    title: string,
    author: string,
    isbn: string,
    category: string,
    publisher: string,
    year: string,
    description: string,
    status: BookStatus,
    addedDate: nat)

  /** "Active" / "Inactive": the status of a member and of a user account. */
  datatype AccountStatus = Active | Inactive

  function AccountStatusName(s: AccountStatus): string
  {
    match s
    case Active => "Active"
    case Inactive => "Inactive"
  }

  /** A roster entry (`library_members`). The type is the form's free choice
      (Student, Faculty, Staff, Public, Admin). */
  datatype Member = Member(
    id: string,
    name: string,
    email: string,
    phone: string,
    memberType: string,
    status: AccountStatus,
    address: string,
    joinDate: nat)

  /** Stored loan status: "Issued", "Overdue" or "Returned". */
  datatype TxStatus = TxIssued | TxOverdue | TxReturned

  function TxStatusName(s: TxStatus): string
  {
    match s
    case TxIssued => "Issued"
    case TxOverdue => "Overdue"
    case TxReturned => "Returned"
  }

  /** The fine record a return attaches to a late loan. */
  datatype Fine = Fine(amount: int, waived: bool, paid: bool, overdueDays: int)

  /** A loan (`library_transactions`). bookTitle and memberName are copies
      taken when the loan is created. condition, priority and createdAt are
      only written by some handlers, hence optional; a missing returnDate is
      the stored `null`. */
  datatype Transaction = Transaction(
    id: string,
    bookId: string,
    bookTitle: string,
    memberId: string,
    memberName: string,
    issueDate: nat,
    dueDate: nat,
    returnDate: Option<nat>,
    status: TxStatus,
    notes: string,
    fine: Option<Fine>,
    condition: Option<string>,
    priority: Option<string>,
    createdAt: Option<nat>)

  /** An open loan: stored status Issued or Overdue. */
  predicate IsOpen(t: Transaction)
  {
    t.status == TxIssued || t.status == TxOverdue
  }

  /** A registered account (`library_users`). */
  datatype User = User(
    id: string,
    firstName: string,
    lastName: string,
    fullName: string,
    email: string,
    username: string,
    password: string,
    phone: string,
    userType: string,
    status: AccountStatus,
    registrationDate: nat,
    newsletter: bool)

  /** The four collections in browser storage, each loaded and saved whole. */
  datatype Store = Store(
    books: seq<Book>,
    members: seq<Member>,
    transactions: seq<Transaction>,
    users: seq<User>)
}
