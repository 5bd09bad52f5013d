/** The library (src/models/library.ts): a registry of books keyed by isbn, kept in
    insertion order, and an append-only log of loans. The lending invariant ties the
    two together: a registered book is out exactly when one loan of it is open. */
module Lending {
  import opened Types
  import opened Errors
  import opened Sequences
  import opened Text
  import opened Books
  import opened BorrowLog

  /** The registry is well formed: `order` lists every key of `books` once, in the
      order the keys were added, and every book is stored under its own isbn. */
  ghost predicate Registered(books: map<string, BookState>, order: seq<string>)
  {
    && (forall i, j :: 0 <= i < j < |order| ==> order[i] != order[j])
    && (forall isbn :: isbn in books <==> isbn in order)
    && (forall isbn :: isbn in books ==> books[isbn].isbn == isbn)
  }

  /** The library invariant: every loan is of a registered book, no isbn ever has two
      open loans, and a registered book is unavailable exactly when one loan of it is open. */
  ghost predicate Consistent(books: map<string, BookState>, order: seq<string>, records: seq<BorrowRecord>)
  {
    && Registered(books, order)
    && (forall i :: 0 <= i < |records| ==> records[i].isbn in books)
    && (forall isbn :: OpenCount(records, isbn) <= 1)
    && (forall isbn :: isbn in books ==> (!books[isbn].available <==> OpenCount(records, isbn) == 1))
  }

  /** The books in the order the registry iterates them (`Array.from(books.values())`). */
  function Values(books: map<string, BookState>, order: seq<string>): (r: seq<BookState>)
    requires forall isbn :: isbn in order ==> isbn in books
    ensures |r| == |order|
    ensures forall i :: 0 <= i < |order| ==> r[i] == books[order[i]]
  {
    seq(|order|, i requires 0 <= i < |order| => books[order[i]])
  }

  /** The values of a well-formed registry are exactly its books. */
  lemma ValuesAreTheBooks(books: map<string, BookState>, order: seq<string>)
    requires Registered(books, order)
    ensures forall isbn :: isbn in books ==> books[isbn] in Values(books, order)
    ensures forall b :: b in Values(books, order) ==> b.isbn in books && books[b.isbn] == b
  {
    var vs := Values(books, order);
    forall isbn | isbn in books ensures books[isbn] in vs {
      var i :| 0 <= i < |order| && order[i] == isbn;
      assert vs[i] == books[isbn];
    }
  }

  /** The filter that getAvailableBooks (true) and getBorrowedBooks (false) apply. */
  function WithAvailability(available: bool): (keep: BookState -> bool)
    ensures forall b :: keep(b) <==> b.available == available
  {
    (b: BookState) => b.available == available
  }

  /** The filter that getBorrowHistory applies for one isbn. */
  function HasIsbn(isbn: string): (keep: BorrowRecord -> bool)
    ensures forall rec :: keep(rec) <==> rec.isbn == isbn
  {
    (rec: BorrowRecord) => rec.isbn == isbn
  }

  /** What searchBooks tests of one book: the lower-cased query occurs in the
      lower-cased title, in the lower-cased author, or in the isbn as it is. The empty
      query matches every book. */
  predicate MatchesQuery(b: BookState, query: string)
    ensures query == "" ==> MatchesQuery(b, query)
  {
    var term := Lower(query);
    Includes(Lower(b.title), term) || Includes(Lower(b.author), term) || Includes(b.isbn, term)
  }

  /** A book matches a query exactly when the lower-cased query occurs at some position
      of the lower-cased title, of the lower-cased author, or of the isbn. */
  lemma MatchesQueryIffOccurs(b: BookState, query: string)
    ensures MatchesQuery(b, query) <==>
              || (exists i :: OccursAt(Lower(b.title), Lower(query), i))
              || (exists i :: OccursAt(Lower(b.author), Lower(query), i))
              || (exists i :: OccursAt(b.isbn, Lower(query), i))
  {
    IncludesIffOccurs(Lower(b.title), Lower(query));
    IncludesIffOccurs(Lower(b.author), Lower(query));
    IncludesIffOccurs(b.isbn, Lower(query));
    assert MatchesQuery(b, query) ==
      (Includes(Lower(b.title), Lower(query)) || Includes(Lower(b.author), Lower(query)) || Includes(b.isbn, Lower(query)));
  }

  /** The filter that searchBooks applies. */
  function Matching(query: string): BookState -> bool
  {
    (b: BookState) => MatchesQuery(b, query)
  }

  /** The empty library satisfies the invariant. */
  lemma EmptyIsConsistent()
    ensures Consistent(map[], [], [])
  {
  }

  /** Registering a new isbn keeps the invariant: the new book is available and has no loans. */
  lemma AddKeepsConsistent(books: map<string, BookState>, order: seq<string>, records: seq<BorrowRecord>, data: BookData)
    requires Consistent(books, order, records)
    requires data.isbn !in books
    ensures Consistent(books[data.isbn := FromData(data)], order + [data.isbn], records)
  {
    OpenCountZero(records, data.isbn);
  }

  /** Lending an available book keeps the invariant: its one new open loan is appended. */
  lemma BorrowKeepsConsistent(books: map<string, BookState>, order: seq<string>, records: seq<BorrowRecord>,
                              isbn: string, borrowerId: string, now: Time)
    requires Consistent(books, order, records)
    requires isbn in books && books[isbn].available
    ensures Consistent(books[isbn := books[isbn].MarkAsBorrowed()], order,
                       records + [BorrowRecord(isbn, borrowerId, now, None)])
  {
    var rec := BorrowRecord(isbn, borrowerId, now, None);
    forall k ensures OpenCount(records + [rec], k) == OpenCount(records, k) + Tally(rec, k) {
      OpenCountAppend(records, [rec], k);
      assert [rec][1..] == [];
    }
  }

  /** A book that is out has an open loan, and it is the only one, so the oldest open
      loan that returnBook closes is also the most recent one. */
  lemma ReturnFindsOpenLoan(books: map<string, BookState>, order: seq<string>, records: seq<BorrowRecord>, isbn: string)
    requires Consistent(books, order, records)
    requires isbn in books && !books[isbn].available
    ensures FirstOpen(records, isbn).Some?
    ensures FirstOpen(records, isbn) == LastOpen(records, isbn)
  {
    OpenCountPositive(records, isbn);
    FirstOpenIsMostRecent(records, isbn);
  }

  /** Taking back a book that is out keeps the invariant: its one open loan gets a
      return date and the book becomes available. */
  lemma ReturnKeepsConsistent(books: map<string, BookState>, order: seq<string>, records: seq<BorrowRecord>,
                              isbn: string, now: Time)
    requires Consistent(books, order, records)
    requires isbn in books && !books[isbn].available
    ensures FirstOpen(records, isbn).Some?
    ensures var i := FirstOpen(records, isbn).value;
            Consistent(books[isbn := books[isbn].MarkAsReturned()], order,
                       records[i := records[i].(returnDate := Some(now))])
  {
    ReturnFindsOpenLoan(books, order, records, isbn);
    var i := FirstOpen(records, isbn).value;
    var rec := records[i].(returnDate := Some(now));
    var records' := records[i := rec];
    forall k ensures OpenCount(records', k) == if k == isbn then 0 else OpenCount(records, k) {
      OpenCountUpdate(records, i, rec, k);
    }
    assert forall j :: 0 <= j < |records'| ==> records'[j].isbn == records[j].isbn;
  }

  /** The partition the two availability queries make of the registry: each book is
      in exactly one of them, and together they hold every book once. */
  lemma AvailableBorrowedPartition(books: map<string, BookState>, order: seq<string>)
    requires Registered(books, order)
    ensures var all := Values(books, order);
            var avail, out := Filter(all, WithAvailability(true)), Filter(all, WithAvailability(false));
            && multiset(avail) + multiset(out) == multiset(all)
            && |avail| + |out| == |all|
            && forall isbn :: isbn in books ==> (books[isbn] in avail <==> books[isbn] !in out)
  {
    var all := Values(books, order);
    FilterPartition(all, WithAvailability(true), WithAvailability(false));
    ValuesAreTheBooks(books, order);
  }

  class Library {
    var books: map<string, BookState>
    var order: seq<string>
    var records: seq<BorrowRecord>

    ghost predicate Valid()
      reads this
    {
      Consistent(books, order, records)
    }

    constructor ()
      ensures Valid()
      ensures books == map[] && order == [] && records == []
    {
      books, order, records := map[], [], [];
    }

    method AddBook(data: BookData) returns (r: Result<BookState>)
      requires Valid()
      modifies this
      ensures Valid()
      ensures r.Err? <==> data.isbn in old(books)
      ensures r.Err? ==> r.error == Duplicate(data.isbn) && books == old(books) && order == old(order)
      ensures r.Ok? ==> && r.value == FromData(data)
                        && books == old(books)[data.isbn := r.value]
                        && order == old(order) + [data.isbn]
      ensures records == old(records)
    {
      if data.isbn in books {
        return Err(Duplicate(data.isbn));
      }
      var book := FromData(data);
      AddKeepsConsistent(books, order, records, data);
      books := books[data.isbn := book];
      order := order + [data.isbn];
      r := Ok(book);
    }

    function GetBook(isbn: string): (r: Result<BookState>)
      reads this
      requires Valid()
      ensures r.Ok? <==> isbn in books
      ensures r.Ok? ==> r.value == books[isbn] && r.value.isbn == isbn
      ensures r.Err? ==> r.error == NotFound(isbn)
    {
      if isbn in books then Ok(books[isbn]) else Err(NotFound(isbn))
    }

    function GetAvailableBooks(): (r: seq<BookState>)
      reads this
      requires Valid()
      ensures IsSubsequence(r, Values(books, order))
      ensures forall isbn :: isbn in books ==> (books[isbn] in r <==> books[isbn].available)
      ensures forall b :: b in r ==> b.available && b.isbn in books && books[b.isbn] == b
    {
      ValuesAreTheBooks(books, order);
      FilterSpec(Values(books, order), WithAvailability(true));
      Filter(Values(books, order), WithAvailability(true))
    }

    function GetBorrowedBooks(): (r: seq<BookState>)
      reads this
      requires Valid()
      ensures IsSubsequence(r, Values(books, order))
      ensures forall isbn :: isbn in books ==> (books[isbn] in r <==> !books[isbn].available)
      ensures forall b :: b in r ==> !b.available && b.isbn in books && books[b.isbn] == b
    {
      ValuesAreTheBooks(books, order);
      FilterSpec(Values(books, order), WithAvailability(false));
      Filter(Values(books, order), WithAvailability(false))
    }

    method BorrowBook(isbn: string, borrowerId: string, now: Time) returns (r: Result<BorrowRecord>)
      requires Valid()
      modifies this
      ensures Valid()
      ensures r.Ok? <==> isbn in old(books) && old(books)[isbn].available
      ensures isbn !in old(books) ==> r == Err(NotFound(isbn))
      ensures isbn in old(books) && !old(books)[isbn].available ==> r == Err(NotAvailable(isbn))
      ensures r.Err? ==> books == old(books) && records == old(records)
      ensures r.Ok? ==> && r.value == BorrowRecord(isbn, borrowerId, now, None)
                        && books == old(books)[isbn := old(books)[isbn].MarkAsBorrowed()]
                        && records == old(records) + [r.value]
      ensures order == old(order)
    {
      var found := GetBook(isbn);
      if found.Err? {
        return Err(found.error);
      }
      var book := found.value;
      if !book.available {
        return Err(NotAvailable(isbn));
      }
      BorrowKeepsConsistent(books, order, records, isbn, borrowerId, now);
      books := books[isbn := book.MarkAsBorrowed()];
      var rec := BorrowRecord(isbn, borrowerId, now, None);
      records := records + [rec];
      r := Ok(rec);
    }

    method ReturnBook(isbn: string, now: Time) returns (r: Result<BookState>)
      requires Valid()
      modifies this
      ensures Valid()
      ensures r.Ok? <==> isbn in old(books) && !old(books)[isbn].available
      ensures isbn !in old(books) ==> r == Err(NotFound(isbn))
      ensures isbn in old(books) && old(books)[isbn].available ==> r == Err(InvalidReturn(isbn))
      ensures r.Err? ==> books == old(books) && records == old(records)
      ensures r.Ok? ==> && books == old(books)[isbn := old(books)[isbn].MarkAsReturned()]
                        && r.value == books[isbn]
      ensures r.Ok? ==> && FirstOpen(old(records), isbn).Some?
                        && var i := FirstOpen(old(records), isbn).value;
                           records == old(records)[i := old(records)[i].(returnDate := Some(now))]
      ensures order == old(order)
    {
      var found := GetBook(isbn);
      if found.Err? {
        return Err(found.error);
      }
      var book := found.value;
      if book.available {
        return Err(InvalidReturn(isbn));
      }
      ReturnKeepsConsistent(books, order, records, isbn, now);
      var open := FindFirstOpen(records, isbn);
      if open.Some? {
        var i := open.value;
        records := records[i := records[i].(returnDate := Some(now))];
      }
      books := books[isbn := book.MarkAsReturned()];
      r := Ok(books[isbn]);
    }

    function GetBorrowHistory(isbn: Option<string>): (r: seq<BorrowRecord>)
      reads this
      ensures isbn.None? || isbn.value == "" ==> r == records
      ensures isbn.Some? && isbn.value != "" ==>
                && IsSubsequence(r, records)
                && forall rec :: multiset(r)[rec] == if rec.isbn == isbn.value then multiset(records)[rec] else 0
    {
      if isbn.Some? && isbn.value != "" then
        FilterSpec(records, HasIsbn(isbn.value));
        Filter(records, HasIsbn(isbn.value))
      else
        records
    }

    function SearchBooks(query: string): (r: seq<BookState>)
      reads this
      requires Valid()
      ensures IsSubsequence(r, Values(books, order))
      ensures forall isbn :: isbn in books ==> (books[isbn] in r <==> MatchesQuery(books[isbn], query))
      ensures forall b :: b in r ==> MatchesQuery(b, query) && b.isbn in books && books[b.isbn] == b
    {
      ValuesAreTheBooks(books, order);
      FilterSpec(Values(books, order), Matching(query));
      Filter(Values(books, order), Matching(query))
    }
  }

  /** The empty query matches every book, so searching for it lists the whole registry. */
  lemma SearchEmptyQueryListsAll(library: Library)
    requires library.Valid()
    ensures library.SearchBooks("") == Values(library.books, library.order)
  {
    var all := Values(library.books, library.order);
    FilterKeepsAll(all, Matching(""));
  }

  /** Title and author are compared without regard to case but the isbn is not, and
      the query is lower-cased: an isbn matches only through a stretch of it that has
      no upper-case letter. */
  lemma IsbnMatchHasNoUpperCase(isbn: string, query: string)
    requires Includes(isbn, Lower(query))
    ensures exists i :: && OccursAt(isbn, Lower(query), i)
                        && forall j :: i <= j < i + |query| ==> !('A' <= isbn[j] <= 'Z')
  {
    var term := Lower(query);
    IncludesIffOccurs(isbn, term);
    var i :| OccursAt(isbn, term, i);
    forall j | i <= j < i + |query| ensures !('A' <= isbn[j] <= 'Z') {
      assert isbn[j] == isbn[i..i + |term|][j - i] == term[j - i];
    }
  }

  /** So a book whose isbn ends in the check digit "X" is not found by its own isbn,
      although its title is found whatever its case. */
  lemma SearchByOwnIsbnMisses()
    ensures var b := BookState("12X", "Go", "Ann", 2000, true);
            !MatchesQuery(b, "12X") && MatchesQuery(b, "GO")
  {
    assert Lower("12X") == "12x";
    assert Lower("Go") == "go";
    assert Lower("GO") == "go";
    assert Lower("Ann") == "ann";
    assert !Includes("ann", "12x");
    assert !Includes("12X", "12x");
  }
}
