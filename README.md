# LibrariPro in Dafny

LibrariPro is a browser-only library management application. Its pages keep
four collections in local storage:

- the catalog of books;
- the roster of members;
- the loan register (transactions);
- the user accounts.

Each page script reads these collections, changes them and writes them back.
This project models the page scripts that do the library's work:

- the return desk (`scripts/return-book.js`);
- the loan register (`scripts/transactions.js`);
- the issue desk (`scripts/issue-book.js`);
- the catalog (`scripts/books.js`);
- the roster (`scripts/members.js`);
- sign-up (`scripts/register.js`);
- the dashboard (`scripts/dashboard.js`).

Layout:

- `common.dfy`: the generic helpers every page uses:
  - case-folded substring search, trimming and decimal digits;
  - filtering, counting and first-match look-up;
  - the descending sort with a stable tie order, and taking a prefix.
- `entities.dfy`: books, members, loans, accounts and the `Store` holding the four collections. Dates are day numbers and the clock is a millisecond count.
- `ledger.dfy`: the id look-ups, the book status update, and the ledger invariant `Consistent`:
  - book ids are unique;
  - a book is Issued exactly when one open loan references it;
  - every open loan references a catalog book.

  It also holds the two generic loan steps, opening a loan (`OpenedLoan`) and closing one (`ClosedLoan`), with what each does to the invariant.
- `paging.dfy`: the ten-row pages and the `changePage` guard shared by the catalog, roster and register pages, as the class `Pager`.
- One module per page script. Each handler is a function from the store to `Result<Store>`; its contract gives the refusals (Validation, NotFound, Conflict, Duplicate) and the exact new state. The lemmas beside it relate the handler to the ledger invariant, to its inverse, or to the other pages.
- `library.dfy`: the class `Library`. Its fields are the four collections, and it has one method per handler, changing those fields in place. Each method is proved to leave the object in exactly the state the handler's function describes.

Inputs the browser supplies become parameters:

- the clock reading `now` (milliseconds);
- the random draws `rand`, taken as the integer the script computes from `Math.random()`;
- the user's answer to a confirmation dialog, taken as "yes".

## Model

| member | source | states |
|---|---|---|
| Ledger.BookIndex | scripts/transactions.js:299 | `findIndex` by id: the first catalog position with the id, or -1 exactly when no book has it |
| Ledger.TxIndex | scripts/return-book.js:185 | the first loan with the id, or -1 exactly when none has it |
| Ledger.SetBookStatus | scripts/return-book.js:217-221 | `find` then set status: only the first book with the id changes, and only in its status; every id stays in place |
| Ledger.SetBookStatusRestore | scripts/issue-book.js:245 | setting a book's status and setting it back gives the catalog back |
| Ledger.OpenedLoanLedger | scripts/issue-book.js:245-250 | opening a loan on a catalog book keeps the ledger invariant exactly when the book was Available |
| Ledger.ClosedLoanLedger | scripts/return-book.js:203-221 | closing a loan keeps the invariant exactly when the loan was open or its book has no open loan |
| Ledger.OpenThenCloseRestores | scripts/return-book.js:217-221 | opening a loan on an Available book and closing it again leaves books, members and accounts as they were |
| Paging.TotalPages | scripts/books.js:167-174 | the fewest ten-row pages that hold the list |
| Paging.PageSlice | scripts/books.js:38-41 | a page holds the rows from (page-1)*10, at most ten, cut short at the list's end |
| Paging.PageOfIndex | scripts/members.js:19-22 | every row is on exactly one accepted page, at position i % 10 of page i / 10 + 1 |
| Paging.PageNonEmpty | scripts/members.js:149-156 | a page has rows exactly when changePage accepts it |
| Paging.Pager.Load | scripts/transactions.js:39-44 | the filtered list becomes the whole stored list; the current page is kept |
| Paging.Pager.ApplyFilter | scripts/books.js:108-131 | the filtered list is the accepted rows in order, and the page is reset to 1 |
| Paging.Pager.ChangePage | scripts/transactions.js:182-189 | a page outside 1..total is ignored, any other becomes current; the list is unchanged |
| Paging.Pager.Shown | scripts/transactions.js:46-49 | the current page's rows of the filtered list |
| ReturnBook.DaysDiff | scripts/return-book.js:160-163 | the days from the due date to now, rounded up: d-1 < elapsed/day <= d |
| ReturnBook.OverdueDays | scripts/return-book.js:160-165 | zero up to the due date's midnight; afterwards the count of started days since, at least 1 |
| ReturnBook.FineAmount | scripts/return-book.js:137-151 | the fine is never negative and is zero exactly when there are no overdue days |
| ReturnBook.Classify | scripts/return-book.js:95-123 | Overdue exactly when there are overdue days, with their fine; otherwise the whole days left, Due Soon when at most two |
| ReturnBook.ReturnNotes | scripts/return-book.js:205 | the prior notes are kept as a prefix; a non-empty note is appended after " \| Return: " |
| ReturnBook.LateFine | scripts/return-book.js:195-214 | a new fine record for the overdue days when overdue now, else the loan's old fine |
| ReturnBook.HandleReturnSubmit | scripts/return-book.js:167-234 | empty id or date is refused; an unknown id is NotFound exactly; Ok exactly when both are given and the id is known, and then the first loan with the id is closed with the date, condition, notes and fine, and its book is released |
| ReturnBook.QuickReturn | scripts/return-book.js:335-391 | fails exactly for an unknown id |
| ReturnBook.QuickReturnIsSubmit | scripts/return-book.js:335-391 | a quick return is the form return with today, condition "Good", no notes and an unwaived, unpaid fine |
| ReturnBook.HandleReturnSubmitLedger | scripts/return-book.js:167-234 | a form return keeps the ledger invariant exactly when the loan was open or its book has no open loan |
| ReturnBook.QuickReturnLedger | scripts/return-book.js:335-391 | the same for a quick return |
| ReturnBook.IssuedTransactions | scripts/return-book.js:16 | exactly the loans with status Issued or Overdue |
| ReturnBook.SearchIssued | scripts/return-book.js:62-67 | an open loan is listed exactly when the term occurs, ignoring case, in its id, title or member name |
| ReturnBook.GlobalSearch | scripts/return-book.js:281-291 | cleared exactly for terms under two characters; otherwise the dropdown's matching |
| ReturnBook.BarcodeHit | scripts/return-book.js:408-411 | a hit exactly when the code occurs in the ISBN or the id |
| ReturnBook.BarcodeMatches | scripts/return-book.js:399-411 | nothing below three trimmed characters; otherwise exactly the catalog books hit |
| ReturnBook.OpenLoanOf | scripts/return-book.js:439-442 | the loan found is open, on the book and stored; none found means no open loan on the book |
| ReturnBook.OpenLoanOfLedger | scripts/return-book.js:439-442 | under the ledger invariant a scanned book shows a loan exactly when it is Issued |
| ReturnBook.RecentReturns | scripts/return-book.js:490-495 | at most five returned loans, latest return first, each drawn from the returned loans no more often than it occurs there |
| ReturnBook.RecentReturnsAreLatest | scripts/return-book.js:490-495 | a returned loan left out is no later than the fifth one shown |
| Transactions.GenerateId | scripts/transactions.js:27-29 | "T" and the decimal digits that read back as the random number |
| Transactions.HandleIssueBook | scripts/transactions.js:285-333 | NotFound exactly when the book or the member is unknown; otherwise the loan is appended and the book marked Issued |
| Transactions.HandleIssueBookLedger | scripts/transactions.js:285-333 | this unguarded issue keeps the ledger invariant exactly when the book was Available |
| Transactions.HandleReturnBook | scripts/transactions.js:335-371 | NotFound exactly for an unknown id; otherwise the loan is closed with the date and notes, and its book is released |
| Transactions.HandleReturnBookLedger | scripts/transactions.js:335-371 | keeps the invariant exactly when the loan was open or its book has no open loan |
| Transactions.ReturnBookQuick | scripts/transactions.js:373-403 | NotFound exactly for an unknown id; otherwise the return date is today and the status Returned |
| Transactions.ReturnBookQuickIsFormReturn | scripts/transactions.js:373-403 | the quick return is the form return with today's date and no notes |
| Transactions.ReturnBookQuickLedger | scripts/transactions.js:373-403 | the ledger iff, as for the form return |
| Transactions.RenewBook | scripts/transactions.js:405-425 | NotFound exactly for an unknown id; otherwise only that loan's due date moves, by 14 days |
| Transactions.RenewBookLedger | scripts/transactions.js:405-425 | a renewal never changes whether the ledger invariant holds |
| Transactions.RenewalShiftsDays | scripts/transactions.js:405-425 | after a renewal the day difference is 14 lower and the overdue days never grow |
| Transactions.FilterTransactions | scripts/transactions.js:123-146 | exactly the loans matching the term, the status and the issue date |
| IssueBook.GenerateTransactionId | scripts/issue-book.js:263-269 | "T" followed by four to nine digits: six digits of clock (fewer only for a clock below 100000) and three of random number, so ten characters for any real clock |
| Common.StampedId | scripts/issue-book.js:263-269 | a prefix letter and four to nine digits; exactly 4 + min(6, digits of the clock) characters, ten for any clock of at least 100000 |
| Common.StampedIdValue | scripts/issue-book.js:263-269 | the digits of a clock-stamped id read back as the clock reading mod 1000000, then the three-digit random number (transaction and user ids alike) |
| Common.LastDecimalValue | scripts/issue-book.js:264 | the last k decimal digits of n read back as n mod 10^k |
| IssueBook.UpdateDueDate | scripts/issue-book.js:180-192 | with a period and an issue date, due = issue + period; otherwise unchanged |
| IssueBook.HandleIssueSubmit | scripts/issue-book.js:194-261 | Validation for an empty field; NotFound exactly for an unknown book or member; Conflict exactly for a book not Available; Ok exactly when every field is given and the book is known and Available and the member is known, and then the described loan is opened |
| IssueBook.HandleIssueSubmitLedger | scripts/issue-book.js:194-261 | this guarded issue always keeps the ledger invariant |
| IssueBook.IssueTwiceConflicts | scripts/issue-book.js:223-226 | issuing the same book again is refused as a conflict |
| IssueBook.IssueCountsForMember | scripts/issue-book.js:163 | an issue adds one to the borrower's issued count and leaves every other member's count alone |
| IssueBook.IssueThenReturnRestoresCatalog | scripts/issue-book.js:229-251 | issuing under a fresh id and quick-returning that id gives the catalog and roster back |
| IssueBook.RecentIssues | scripts/issue-book.js:283-288 | at most five Issued loans, newest first, each drawn from the Issued loans no more often than it occurs there |
| IssueBook.RecentIssuesAreNewest | scripts/issue-book.js:283-288 | an Issued loan left out was created no later than the fifth one shown |
| Books.GenerateId | scripts/books.js:21-23 | the prefix, then one to five digits that read back as the random number |
| Books.ApplyForm | scripts/books.js:232-238 | the form's fields and status Available; id and added date kept |
| Books.HandleBookSubmit | scripts/books.js:213-253 | edit: only the first book with the id takes the form; add: a new Available book appended with the form, the random id and today |
| Books.EditIdempotent | scripts/books.js:232-238 | the same edit twice is the edit once |
| Books.EditBookLedger | scripts/books.js:232-238 | an edit keeps the ledger invariant exactly when the book is unknown or has no open loan |
| Books.AppendBookLedger | scripts/books.js:240-247 | appending an Available book keeps the invariant exactly when its id is new |
| Books.AddBookLedger | scripts/books.js:240-247 | adding a book keeps the invariant exactly when its random id does not collide |
| Books.DeleteBook | scripts/books.js:255-264 | exactly the books with another id remain |
| Books.DeleteBookKeepsOrder | scripts/books.js:258-259 | the remaining books keep their catalog order (deletion splits over concatenation) |
| Books.DeleteBookIdempotent | scripts/books.js:258-259 | deleting twice is deleting once |
| Books.DeleteKeepsUnique | scripts/books.js:258-259 | deletion keeps ids unique |
| Books.DeleteBookLedger | scripts/books.js:255-264 | deleting keeps the ledger invariant exactly when no open loan references the book |
| Books.FilterBooks | scripts/books.js:108-131 | exactly the books matching the term, category and status |
| Books.IssuedFilterShowsLoans | scripts/books.js:115-126 | under the invariant the "Issued" filter shows exactly the books with an open loan |
| Members.ApplyForm | scripts/members.js:210-216 | the form's fields and status Active; id and join date kept |
| Members.HandleMemberSubmit | scripts/members.js:193-231 | edit: only the first member with the id takes the form; add: a new Active member appended with the form, the random id and today |
| Members.EditIdempotent | scripts/members.js:210-216 | the same edit twice is the edit once |
| Members.AddedMemberFound | scripts/members.js:218-226 | an added member is found by the new id unless it was already taken |
| Members.DeleteMember | scripts/members.js:233-242 | exactly the members with another id remain; the id is no longer found |
| Members.DeleteMemberKeepsOrder | scripts/members.js:237 | the remaining members keep their roster order (deletion splits over concatenation) |
| Members.DeleteMemberIdempotent | scripts/members.js:237 | deleting twice is deleting once |
| Members.DeleteKeepsOthers | scripts/members.js:237 | every other member is still found |
| Members.FilterMembers | scripts/members.js:90-113 | exactly the members matching the term, status and type |
| Members.SearchById | scripts/members.js:97-108 | a member is always found by their own id |
| Register.ValidEmailIsPattern | scripts/register.js:103-107 | the e-mail scan accepts exactly the strings the address pattern describes |
| Register.SeparatorIgnored | scripts/register.js:135-141 | a separator anywhere in the phone number does not change the phone check |
| Register.ValidateForm | scripts/register.js:95-144 | no error exactly when every rule holds; MissingField exactly when a required field is empty; BadPhone only for a non-empty invalid phone |
| Register.GenerateUserId | scripts/register.js:146-152 | "U" followed by four to nine digits, ten characters for a clock of six digits or more; their values are those of `Common.StampedIdValue` |
| Register.NewUser | scripts/register.js:60-78 | the stored account's fields from the form, status Active, newsletter exactly when "on" |
| Register.MemberFromUser | scripts/register.js:154-170 | the roster id is the account id with "M" in place of its first letter; the name, contact and type are copied |
| Register.Register | scripts/register.js:25-91 | Validation exactly for a form that breaks a rule; Duplicate exactly when the username or e-mail is taken; otherwise the account is appended, plus a roster entry unless Admin |
| Register.RegisterKeepsAccountsUnique | scripts/register.js:49-57 | registration keeps usernames and e-mails unique |
| Register.RegisterTwiceDuplicate | scripts/register.js:49-57 | the same form again is refused as a duplicate |
| Register.RegisterRosterEntry | scripts/register.js:80-83 | a non-admin gets one roster entry with the "M" id; an admin gets none |
| Register.PasswordStrength | scripts/register.js:293-303 | the number of the six criteria met: at most 6, 6 exactly with 8+ characters and all four classes, 0 exactly for the empty password, at least 2 from six characters |
| Dashboard.DashboardStats | scripts/dashboard.js:62-74 | all books, Active members, and loans with stored status Issued and Overdue |
| Dashboard.CountersMatchCatalog | scripts/dashboard.js:70-73 | under the ledger invariant the Issued and Overdue counters add up to the books marked Issued |
| Dashboard.RecentTransactions | scripts/dashboard.js:98 | the last five loans stored, newest first |
| Dashboard.OverdueList | scripts/dashboard.js:181 | the first five Overdue loans in stored order |
| Dashboard.CountPopularity | scripts/dashboard.js:135-138 | the counting loop gives each book id its number of loans, and holds exactly the ids with one |
| Dashboard.Ranked | scripts/dashboard.js:141-145 | each book paired with its loan count |
| Dashboard.TopBooks | scripts/dashboard.js:141-147 | five books (fewer in a smaller catalog), most borrowed first, each with its true count, a sub-bag of the ranked catalog (no book twice unless the catalog lists it twice) |
| Dashboard.PopularBooks | scripts/dashboard.js:128-147 | the page's ranking equals the specification of the top five |
| Dashboard.TopBooksAreMostBorrowed | scripts/dashboard.js:146-147 | no book left off was borrowed more often than the fifth one shown |
| Dashboard.PopularitySumBound | scripts/dashboard.js:135-145 | over unique ids, the popularities add up to at most the number of loans |
| Handlers.Library.constructor | scripts/transactions.js:39 | the object holds the collections as loaded |
| Handlers.Library.SetStatus | scripts/return-book.js:217-221 | the books become the status update; nothing else changes |
| Handlers.Library.HandleReturnSubmit | scripts/return-book.js:167-234 | the in-place return reaches the state of `ReturnBook.HandleReturnSubmit`, or keeps the old one with its error |
| Handlers.Library.QuickReturn | scripts/return-book.js:335-391 | the in-place version of `ReturnBook.QuickReturn` |
| Handlers.Library.HandleIssueBook | scripts/transactions.js:285-333 | the in-place issue reaches the described state; the ledger survives exactly when the book was Available |
| Handlers.Library.HandleReturnBook | scripts/transactions.js:335-371 | the in-place version of `Transactions.HandleReturnBook` |
| Handlers.Library.ReturnBookQuick | scripts/transactions.js:373-403 | the in-place version of `Transactions.ReturnBookQuick` |
| Handlers.Library.RenewBook | scripts/transactions.js:405-425 | the in-place renewal reaches the described state and leaves the ledger invariant as it was |
| Handlers.Library.HandleIssueSubmit | scripts/issue-book.js:194-261 | the in-place guarded issue reaches the described state and always preserves the ledger invariant |
| Handlers.Library.HandleBookSubmit | scripts/books.js:213-253 | the catalog becomes `Books.HandleBookSubmit` of the old one; nothing else changes |
| Handlers.Library.DeleteBook | scripts/books.js:255-264 | the catalog loses the id; the ledger survives exactly when the book had no open loan |
| Handlers.Library.HandleMemberSubmit | scripts/members.js:193-231 | the roster becomes `Members.HandleMemberSubmit` of the old one; nothing else changes |
| Handlers.Library.DeleteMember | scripts/members.js:233-242 | the roster loses the id; nothing else changes |
| Handlers.Library.SubmitRegistration | scripts/register.js:25-91 | the in-place sign-up reaches the state of `Register.Register`, or keeps the old one with its error |

## Left out

- The pages' markup is not modelled: rendering, alerts, modals, tabs, counter animation, pagination buttons and input focus.
- Confirmation dialogs (`confirm`) are taken as accepted. A declined dialog changes nothing.
- Local storage and JSON (de)serialisation are not modelled. Each handler takes the loaded collections and returns the ones to be saved.
- Date parsing, local versus UTC midnight, `toISOString` and `toFixed(2)` are not modelled. A date is a whole day number, and the clock is a millisecond count whose day is `now / 86400000`.
- `Date.now()` and `Math.random()` are parameters. `rand` is the integer the script derives, so an id is proved right for every draw, not for a random one.
- Sign-in, the session guard, the home page and the seed data in `scripts/main.js` are not part of this model.
- Case folding covers ASCII letters only.
- Text the scripts read from a missing form field or record field (null or undefined) is the empty string.
- Sorting:
  - A loan without a return date sorts last, and so does one without a creation time. The scripts' comparator yields NaN for them, and the browser's order for NaN is unspecified.
  - Equal keys keep their stored order.
- `calculateDaysOverdue` and the fine on a form return use the clock, not the entered return date, because that is what the code does.
- `ReturnBook.HandleReturnSubmit` does not reject an already returned loan, because the code does not check the status. Returning it again releases its book under whatever loan holds it now. `ReturnBook.HandleReturnSubmitLedger` states exactly when that breaks the ledger invariant.
- `Transactions.HandleIssueBook` does not check the book's availability, the member's status or the order of the dates, because the code does not. `Transactions.HandleIssueBookLedger` states the consequence.
- `IssueBook.HandleIssueSubmit` does not check that the due date follows the issue date, or the member's status, because the code does not.
- `Members.DeleteMember` keeps the member's loans, as the code does.
- `Register.ValidateForm`, `Register.PasswordStrength`, `ReturnBook.GlobalSearch` and `ReturnBook.BarcodeMatches` measure a string as its number of characters (code points). JavaScript's `.length` counts UTF-16 code units, so for text outside the Basic Multilingual Plane (emoji, for one) the length checks of scripts/register.js:117 and 295-296 and the prefix lengths of scripts/return-book.js:281 and 401 can differ from the model.
- `Register.StripPhone` removes white space, '-' and '$', which is what the character class in the phone check matches.
- `Dashboard.DashboardStats` counts loans by their stored status. Loans whose due date has passed but which are still stored as Issued count as Issued, as in the code.
