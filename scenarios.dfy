/** Client code that drives the library as tests/library.test.ts does, proved from the
    operations' contracts alone. */
module Scenarios {
  import opened Types
  import opened Errors
  import opened Books
  import opened Sequences
  import opened BorrowLog
  import opened Lending

  /** Register a book, lend it, take it back: the book is as it was registered, and its
      history is one loan, now with a return date. */
  method BorrowThenReturn(data: BookData, borrowerId: string, borrowedAt: Time, returnedAt: Time)
    returns (book: BookState, history: seq<BorrowRecord>)
    ensures book == FromData(data)
    ensures history == [BorrowRecord(data.isbn, borrowerId, borrowedAt, Some(returnedAt))]
  {
    var library := new Library();
    book, history := BorrowThenReturnIn(library, data, borrowerId, borrowedAt, returnedAt);
    assert library.records == [] + [BorrowRecord(data.isbn, borrowerId, borrowedAt, Some(returnedAt))];
  }

  /** The same round trip in a library already in use: a book newly registered in any
      valid library, lent and taken back, has as its history the one loan, now with a
      return date. Every earlier record stays as it was. */
  method BorrowThenReturnIn(library: Library, data: BookData, borrowerId: string, borrowedAt: Time, returnedAt: Time)
    returns (book: BookState, history: seq<BorrowRecord>)
    requires library.Valid() && data.isbn !in library.books
    modifies library
    ensures library.Valid()
    ensures book == FromData(data)
    ensures library.records == old(library.records) + [BorrowRecord(data.isbn, borrowerId, borrowedAt, Some(returnedAt))]
    ensures data.isbn != "" ==> history == [BorrowRecord(data.isbn, borrowerId, borrowedAt, Some(returnedAt))]
    ensures data.isbn == "" ==> history == library.records
  {
    ghost var before := library.records;
    ghost var closed := BorrowRecord(data.isbn, borrowerId, borrowedAt, Some(returnedAt));
    LendNewBook(library, data, borrowerId, borrowedAt);
    var returned := library.ReturnBook(data.isbn, returnedAt);
    assert returned.Ok?;
    book := returned.value;
    assert (before + [closed.(returnDate := None)])[|before| := closed] == before + [closed];
    assert library.records == before + [closed];
    history := library.GetBorrowHistory(Some(data.isbn));
    if data.isbn != "" {
      HistoryOfFreshLoan(before, closed);
    }
  }

  /** Register a book in a valid library and lend it: the loan is appended to the log,
      and it is the first open loan of that isbn. */
  method LendNewBook(library: Library, data: BookData, borrowerId: string, borrowedAt: Time)
    requires library.Valid() && data.isbn !in library.books
    modifies library
    ensures library.Valid()
    ensures library.books == old(library.books)[data.isbn := FromData(data).MarkAsBorrowed()]
    ensures library.records == old(library.records) + [BorrowRecord(data.isbn, borrowerId, borrowedAt, None)]
    ensures FirstOpen(library.records, data.isbn) == Some(|old(library.records)|)
    ensures forall j :: 0 <= j < |old(library.records)| ==> old(library.records)[j].isbn != data.isbn
  {
    ghost var before := library.records;
    ghost var open := BorrowRecord(data.isbn, borrowerId, borrowedAt, None);
    NewIsbnHasNoRecord(library.books, library.order, before, data.isbn);
    var added := library.AddBook(data);
    assert added.Ok? && library.records == before;
    assert library.books[data.isbn] == FromData(data);
    var lent := library.BorrowBook(data.isbn, borrowerId, borrowedAt);
    assert lent.Ok? && library.records == before + [open];
    FreshLoanIsFirstOpen(before, open);
  }

  /** An isbn that is not registered has no record in a consistent log. */
  lemma NewIsbnHasNoRecord(books: map<string, BookState>, order: seq<string>, records: seq<BorrowRecord>, isbn: string)
    requires Consistent(books, order, records) && isbn !in books
    ensures forall j :: 0 <= j < |records| ==> records[j].isbn != isbn
  {
  }

  /** A loan appended to a log with no record of its isbn is that isbn's first open loan. */
  lemma FreshLoanIsFirstOpen(before: seq<BorrowRecord>, open: BorrowRecord)
    requires forall j :: 0 <= j < |before| ==> before[j].isbn != open.isbn
    requires open.returnDate.None?
    ensures FirstOpen(before + [open], open.isbn) == Some(|before|)
  {
    var recs := before + [open];
    assert IsOpenFor(recs[|before|], open.isbn);
    assert forall j :: 0 <= j < |before| ==> recs[j] == before[j];
  }

  /** The history of an isbn whose only record comes last is that record alone. */
  lemma HistoryOfFreshLoan(before: seq<BorrowRecord>, last: BorrowRecord)
    requires forall j :: 0 <= j < |before| ==> before[j].isbn != last.isbn
    ensures Filter(before + [last], HasIsbn(last.isbn)) == [last]
  {
    FilterConcat(before, [last], HasIsbn(last.isbn));
    FilterKeepsNone(before, HasIsbn(last.isbn));
    assert [last][1..] == [];
  }

  /** Register two books and lend the first: only the second is available, the first
      is the only one out, and a second loan of the first is refused. */
  method AvailableAfterBorrow(first: BookData, second: BookData)
    returns (available: seq<BookState>, borrowed: seq<BookState>, again: Result<BorrowRecord>)
    requires first.isbn != second.isbn
    ensures available == [FromData(second)]
    ensures borrowed == [FromData(first).MarkAsBorrowed()]
    ensures again == Err(NotAvailable(first.isbn))
  {
    var library := RegisterTwoLendFirst(first, second);
    var out, added := FromData(first).MarkAsBorrowed(), FromData(second);
    var all := Values(library.books, library.order);
    assert all == [out, added];
    available := library.GetAvailableBooks();
    borrowed := library.GetBorrowedBooks();
    FilterTwo(out, added, WithAvailability(true));
    FilterTwo(out, added, WithAvailability(false));
    again := library.BorrowBook(first.isbn, "user123", 1);
  }

  /** A new library holding two books, the first of them lent to "user123". */
  method RegisterTwoLendFirst(first: BookData, second: BookData) returns (library: Library)
    requires first.isbn != second.isbn
    ensures fresh(library) && library.Valid()
    ensures library.order == [first.isbn, second.isbn]
    ensures library.books[first.isbn] == FromData(first).MarkAsBorrowed()
    ensures library.books[second.isbn] == FromData(second)
  {
    library := new Library();
    var r1 := library.AddBook(first);
    var r2 := library.AddBook(second);
    var lent := library.BorrowBook(first.isbn, "user123", 0);
  }

  /** Registering an isbn twice is refused, and a lookup of another isbn is refused. */
  method DuplicateAndMissing(data: BookData, other: string)
    returns (duplicate: Result<BookState>, missing: Result<BookState>, returned: Result<BookState>)
    requires other != data.isbn
    ensures duplicate == Err(Duplicate(data.isbn))
    ensures missing == Err(NotFound(other))
    ensures returned == Err(InvalidReturn(data.isbn))
  {
    var library := new Library();
    var added := library.AddBook(data);
    duplicate := library.AddBook(data);
    missing := library.GetBook(other);
    returned := library.ReturnBook(data.isbn, 0);
  }

  /** A book object goes Available, Borrowed, Borrowed, Available: each transition is
      idempotent and the metadata never move. */
  method BookLifecycle(data: BookData) returns (lent: BookState, back: BookState)
    ensures !lent.available && lent.Data() == data
    ensures back == FromData(data)
  {
    var book := new Book(data);
    book.MarkAsBorrowed();
    book.MarkAsBorrowed();
    lent := book.ToJSON();
    book.MarkAsReturned();
    back := book.ToJSON();
  }
}
