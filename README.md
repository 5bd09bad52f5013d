# Library catalog with lending, in Dafny

This project models an in-memory library catalog with lending, written in TypeScript.
A `Book` has fixed metadata (isbn, title, author, year) and an availability flag that
moves between Available and Borrowed. A `Library` keeps a registry of books keyed by
isbn, iterated in insertion order, and an append-only log of borrow records. It
registers books, looks them up, lends and takes them back, and answers four queries:
available books, borrowed books, borrow history and a text search. Every refused
operation fails with one of four errors, each carrying the isbn it was refused for.

The central result is the lending invariant (`Lending.Consistent`). Every borrow record
is of a registered book. No isbn ever has two open records, where a record is open
while it has no return date. A registered book is unavailable exactly when one record
of it is open. The empty library satisfies it, and adding, lending and returning
preserve it. Under it, the record that `returnBook` closes always exists, and it is
both the oldest and the most recent open record of that book.

Layout, one module per file:

- `types.dfy` (`Types`): `BookData`, `BorrowRecord`, `Option` and `Time`, from `src/models/types.ts`.
- `errors.dfy` (`Errors`): the error kinds of `src/models/error.ts` as `LibError`, plus `Result`.
- `sequences.dfy` (`Sequences`): `Filter`, which is `Array.prototype.filter`, and the subsequence relation.
- `text.dfy` (`Text`): ASCII lower-casing and `String.prototype.includes`.
- `book.dfy` (`Books`): the `Book` class of `src/models/book.ts`. Also `BookState`, the value that `toJSON` produces and that the library stores.
- `borrow_log.dfy` (`BorrowLog`): facts about open records in the borrow log, and the `find` scan that `returnBook` performs.
- `library.dfy` (`Lending`): the invariant, one preservation lemma per operation, and the `Library` class.
- `scenarios.dfy` (`Scenarios`): client methods that replay some cases of `tests/library.test.ts`, plus a book-object lifecycle. Each is proved from the operations' contracts.

The library's methods take the current time as a parameter `now`. The getter
`available` of a `Book` is `Books.Book.Available`, a read of the flag.

Where the code behaves differently from what a reader might expect, the model follows the code:

- `returnBook` closes the first (oldest) open record, found with `find`, where a reader might expect the most recent one. `BorrowLog.FirstOpenIsMostRecent` and `Lending.ReturnFindsOpenLoan` prove that the two are the same record whenever the invariant holds.
- A book could in principle be out with no open record; `returnBook` then marks it available without closing a record. The model keeps that branch. `Lending.ReturnFindsOpenLoan` proves that it cannot be reached through the library's own operations, starting from the empty library.
- `getBorrowHistory` tests `if (isbn)`, so the empty string returns every record, the same as no argument.
- `searchBooks` lower-cases the query, the title and the author, but not the isbn. A reader might expect the isbn to be matched without regard to case as well. As written, an isbn with an upper-case letter, such as the check digit `X`, cannot be matched at that letter by any query. `Lending.IsbnMatchHasNoUpperCase` states this, and `Lending.SearchByOwnIsbnMisses` gives an example.

## Model

| member | source | states |
|---|---|---|
| `Books.FromData` | src/models/book.ts:10-16 | a new book carries exactly the caller's isbn, title, author and year, and is available |
| `Books.Book.constructor` | src/models/book.ts:10-16 | constructing a book object copies the four metadata fields and sets availability to true |
| `Books.BookState.MarkAsBorrowed` | src/models/book.ts:22-24 | the Borrowed state: availability false, metadata unchanged |
| `Books.BookState.MarkAsReturned` | src/models/book.ts:26-28 | the Available state: availability true, metadata unchanged |
| `Books.Book.MarkAsBorrowed` | src/models/book.ts:22-24 | the object's serialized state becomes the Borrowed state of its old one; only the flag is written |
| `Books.Book.MarkAsReturned` | src/models/book.ts:26-28 | the object's serialized state becomes the Available state of its old one; only the flag is written |
| `Books.MarkAsBorrowedIdempotent` | src/models/book.ts:22-24 | marking as borrowed twice is the same as marking once |
| `Books.MarkAsReturnedIdempotent` | src/models/book.ts:26-28 | marking as returned twice is the same as marking once |
| `Books.TwoStateRoundTrips` | src/models/book.ts:22-28 | borrow then return restores an available book exactly, and return then borrow restores a borrowed one |
| `Books.Book.Available` | src/models/book.ts:18-20 | the getter reports exactly the availability that the serialized form carries |
| `Books.Book.ToJSON` | src/models/book.ts:30-38 | the serialized form holds the four constant metadata fields unchanged and the current availability |
| `Sequences.Filter` | src/models/library.ts:83-88 | an element is in the result exactly when it is in the input and satisfies the predicate |
| `Sequences.FilterSpec` | src/models/library.ts:83-88 | the result keeps every occurrence of a satisfying element, drops every other element, and keeps the input's order |
| `Sequences.FilterConcat` | src/models/library.ts:85 | filtering a concatenation is the concatenation of the filtered parts |
| `Sequences.FilterKeepsNone` | src/models/library.ts:85 | filtering with a predicate no element meets gives the empty sequence |
| `Sequences.FilterTwo` | src/models/library.ts:37-43 | filtering a two-element sequence keeps each element exactly when it satisfies the predicate, in order |
| `Sequences.FilterKeepsAll` | src/models/library.ts:90-97 | filtering with a predicate every element meets returns the sequence unchanged |
| `Sequences.FilterPartition` | src/models/library.ts:37-43 | two complementary filters split a sequence: each element goes to exactly one side, and the two multisets add up to the whole |
| `Text.LowerChar` | src/models/library.ts:91 | a lower-cased character is never an upper-case ASCII letter, and it differs from the input only for an upper-case letter |
| `Text.Lower` | src/models/library.ts:91 | lower-casing keeps the length and lower-cases each character in place |
| `Text.LowerIdempotent` | src/models/library.ts:91-94 | lower-casing an already lower-cased string changes nothing |
| `Text.IncludesIffOccurs` | src/models/library.ts:93-95 | the `includes` scan answers true exactly when the needle occurs at some position of the string |
| `Text.Includes` | src/models/library.ts:93-95 | `String.prototype.includes`: the empty string is included in every string, and no string in a shorter one |
| `BorrowLog.IsOpenFor` | src/models/library.ts:72 | the `find` callback: the record is of the isbn and has no return date |
| `BorrowLog.FirstOpen` | src/models/library.ts:71-73 | the oldest open record of the isbn: it is open, no earlier record is, and None means no record is open |
| `BorrowLog.LastOpen` | src/models/library.ts:71-73 | the most recent open record of the isbn: it is open, no later record is, and None means no record is open |
| `BorrowLog.FindFirstOpen` | src/models/library.ts:71-73 | the front-to-back scan that `find` performs returns the oldest open record of the isbn |
| `BorrowLog.OpenCountAppend` | src/models/library.ts:60 | appending records adds their open records to the count |
| `BorrowLog.OpenCountZero` | src/models/library.ts:71-73 | an isbn has no open records counted exactly when no record of the log is open for it |
| `BorrowLog.OpenCountUpdate` | src/models/library.ts:76 | replacing one record changes the count by what the new record adds and the old one took away |
| `BorrowLog.TwoOpenLoans` | src/models/library.ts:45-81 | two distinct open records of an isbn make its count at least two |
| `BorrowLog.AtMostOneOpen` | src/models/library.ts:45-81 | when an isbn has at most one open record, any two of its open records are the same record |
| `BorrowLog.FirstOpenIsMostRecent` | src/models/library.ts:71-73 | when an isbn has at most one open record, the oldest open record found by `find` is also the most recent |
| `BorrowLog.OpenCountPositive` | src/models/library.ts:71-75 | a positive count of open records means `find` finds one |
| `Lending.Consistent` | src/models/library.ts:14-17 | the lending invariant: every record is of a registered book, no isbn has two open records, and a registered book is unavailable exactly when one record of it is open |
| `Lending.WithAvailability` | src/models/library.ts:37-43 | the `filter` callbacks of `getAvailableBooks` (true) and `getBorrowedBooks` (false): a book is kept exactly when its availability is the given flag |
| `Lending.HasIsbn` | src/models/library.ts:85 | the `filter` callback of `getBorrowHistory`: a record is kept exactly when it is of the given isbn |
| `Lending.Values` | src/models/library.ts:38 | the registry's books in insertion order, one per position of the insertion order |
| `Lending.MatchesQuery` | src/models/library.ts:92-96 | the `searchBooks` callback; the empty query matches every book |
| `Lending.MatchesQueryIffOccurs` | src/models/library.ts:91-96 | a book matches exactly when the lower-cased query occurs somewhere in the lower-cased title, the lower-cased author or the isbn as written |
| `Lending.ValuesAreTheBooks` | src/models/library.ts:37-43 | in a well-formed registry, the books in insertion order are exactly the registered books, each stored under its own isbn |
| `Lending.EmptyIsConsistent` | src/models/library.ts:14-17 | the empty library satisfies the lending invariant |
| `Lending.AddKeepsConsistent` | src/models/library.ts:19-27 | registering a new isbn preserves the lending invariant |
| `Lending.BorrowKeepsConsistent` | src/models/library.ts:45-62 | lending an available book and appending its open record preserves the lending invariant |
| `Lending.ReturnFindsOpenLoan` | src/models/library.ts:64-81 | under the invariant, a book that is out has an open record, and its oldest open record is its most recent one |
| `Lending.ReturnKeepsConsistent` | src/models/library.ts:64-81 | closing the first open record of a book that is out and marking the book available preserves the lending invariant |
| `Lending.AvailableBorrowedPartition` | src/models/library.ts:37-43 | the available and borrowed lists together hold every registered book once, each book in exactly one |
| `Lending.Library.constructor` | src/models/library.ts:14-17 | a new library has no books and no records, and satisfies the invariant |
| `Lending.Library.AddBook` | src/models/library.ts:19-27 | fails with Duplicate exactly when the isbn is registered, leaving the state unchanged. Otherwise it stores the new available book under its isbn, appends the isbn to the insertion order and leaves the other books and all records alone. The invariant is kept |
| `Lending.Library.GetBook` | src/models/library.ts:29-35 | returns the stored book, whose isbn is the one asked for, when the isbn is registered, and fails with NotFound otherwise |
| `Lending.Library.GetAvailableBooks` | src/models/library.ts:37-39 | a subsequence of the books in insertion order, holding a registered book exactly when it is available |
| `Lending.Library.GetBorrowedBooks` | src/models/library.ts:41-43 | a subsequence of the books in insertion order, holding a registered book exactly when it is not available |
| `Lending.Library.BorrowBook` | src/models/library.ts:45-62 | fails with NotFound before NotAvailable, and a failure changes nothing. On success the book becomes Borrowed and exactly one record of (isbn, borrower, now, no return date) is appended after the unchanged earlier records. The invariant is kept |
| `Lending.Library.ReturnBook` | src/models/library.ts:64-81 | fails with NotFound for an unknown isbn and with InvalidReturn for an available book, and a failure changes nothing. On success the book becomes Available, an open record exists, and only the oldest open record of the isbn gets the return date; the record count and all other records are unchanged. The invariant is kept |
| `Lending.Library.GetBorrowHistory` | src/models/library.ts:83-88 | with a non-empty isbn, exactly the records of that isbn in their original order; with no isbn or the empty string, every record in order |
| `Lending.Library.SearchBooks` | src/models/library.ts:90-97 | a subsequence of the books in insertion order, holding a registered book exactly when the lower-cased query occurs in its lower-cased title, its lower-cased author or its isbn as written |
| `Lending.SearchEmptyQueryListsAll` | src/models/library.ts:90-97 | searching for the empty string lists every book in insertion order |
| `Lending.IsbnMatchHasNoUpperCase` | src/models/library.ts:91-95 | a query matches an isbn only where that part of the isbn has no upper-case letter, because the isbn is not lower-cased |
| `Lending.SearchByOwnIsbnMisses` | src/models/library.ts:90-97 | a book with isbn "12X" is not found by the query "12X", while its title "Go" is found by "GO" |
| `Scenarios.BorrowThenReturn` | tests/library.test.ts:78-84 | register, lend and take back a book: it is as registered, and its history is the one loan, now with a return date |
| `Scenarios.BorrowThenReturnIn` | tests/library.test.ts:78-84 | in any valid library, a newly registered book lent and taken back is as registered, one closed record is appended after the unchanged earlier ones, and its history (non-empty isbn) is that record alone |
| `Scenarios.LendNewBook` | src/models/library.ts:19-62 | in any valid library, registering a new isbn and lending it appends one open record, leaves the book out, and makes that record the isbn's first open loan |
| `Scenarios.NewIsbnHasNoRecord` | src/models/library.ts:45-62 | under the invariant, an unregistered isbn has no record in the log |
| `Scenarios.FreshLoanIsFirstOpen` | src/models/library.ts:71-73 | a loan appended to a log with no record of its isbn is what `find` returns |
| `Scenarios.HistoryOfFreshLoan` | src/models/library.ts:83-85 | the history of an isbn whose only record comes last is that record alone |
| `Scenarios.AvailableAfterBorrow` | tests/library.test.ts:116-144 | after two books are registered and the first is lent, only the second is available and only the first is borrowed. Lending the first again fails with NotAvailable |
| `Scenarios.RegisterTwoLendFirst` | tests/library.test.ts:116-144 | a new library with two books registered and the first lent keeps them in registration order, the first out and the second available |
| `Scenarios.DuplicateAndMissing` | tests/library.test.ts:30-76 | registering an isbn twice fails with Duplicate, an unknown isbn fails with NotFound, and returning a book that was never lent fails with InvalidReturn |
| `Scenarios.BookLifecycle` | src/models/book.ts:22-28 | a book object lent twice is Borrowed with its metadata intact, and once returned it equals a newly registered book |

## Left out

- Clock reads (`new Date()` in `borrowBook` and `returnBook`): the time is a parameter `now` of those methods. `Time` is an integer, and only whether a return date is set matters to any property.
- Object identity and aliasing: the library stores `BookState` values and record values, not shared objects. In the source, `getBook` returns a live `Book` whose later changes the caller sees, `getBorrowHistory` returns a copy of the array that shares the record objects, and the three book lists share the library's `Book` objects. The `Book` class is modelled on its own, in `Books.Book`. In the source a caller holding a `Book` returned by `addBook` or `getBook` can call `markAsBorrowed` or `markAsReturned` on it, and a caller holding the `BorrowRecord` returned by `borrowBook` or listed by `getBorrowHistory` can set its `returnDate`. Either changes the library's state behind its back and can break `Lending.Consistent`: a book marked out with no open record, or two open records of one isbn. The model does not represent this, so the invariant and every result proved under it hold only for libraries changed through their own operations.
- `Text.Lower`: ASCII only. JavaScript's `toLowerCase` applies the full Unicode case mapping, which can change a string's length.
- `Text.Includes`, `Text.Lower`: a Dafny string is a sequence of Unicode scalar values, while a JavaScript string is a sequence of UTF-16 code units. The two agree on well-formed strings, but the model cannot represent a lone surrogate.
- Error messages and the `Error` subclass mechanics (`this.name = this.constructor.name`): an error is a `LibError` tag with its isbn.
- `year` is an unbounded integer. A JavaScript `number` is a double.
- Validation of `BookData`: the source performs none, and neither does the model. Any string, including the empty string, is a valid isbn.
- `Lending.Library` query functions and methods require the object invariant `Valid()`. Every library starts from the constructor and every method preserves the invariant, so callers always meet it.
