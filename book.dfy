/** One catalog item (src/models/book.ts): fixed metadata and an availability flag
    that moves between two states, Available and Borrowed. */
module Books {
  import opened Types

  /** The plain attribute set a book serializes to: its metadata and its availability.
      The library keeps its books as values of this type. */
  datatype BookState = BookState(isbn: string, title: string, author: string, year: int, available: bool)
  {
    /** The metadata, without the availability flag. */
    function Data(): BookData
    {
      BookData(isbn, title, author, year)
    }

    /** The Borrowed state with the same metadata. */
    function MarkAsBorrowed(): (b: BookState)
      ensures !b.available && b.Data() == Data()
    {
      this.(available := false)
    }

    /** The Available state with the same metadata. */
    function MarkAsReturned(): (b: BookState)
      ensures b.available && b.Data() == Data()
    {
      this.(available := true)
    }
  }

  /** A newly registered book: the caller's metadata, available. */
  function FromData(data: BookData): (b: BookState)
    ensures b.Data() == data && b.available
  {
    BookState(data.isbn, data.title, data.author, data.year, true)
  }

  lemma MarkAsBorrowedIdempotent(b: BookState)
    ensures b.MarkAsBorrowed().MarkAsBorrowed() == b.MarkAsBorrowed()
  {
  }

  lemma MarkAsReturnedIdempotent(b: BookState)
    ensures b.MarkAsReturned().MarkAsReturned() == b.MarkAsReturned()
  {
  }

  /** Borrowing an available book and returning it restores it exactly, and so does
      returning a borrowed book and borrowing it again: the two states are all there is. */
  lemma TwoStateRoundTrips(b: BookState)
    ensures b.available ==> b.MarkAsBorrowed().MarkAsReturned() == b
    ensures !b.available ==> b.MarkAsReturned().MarkAsBorrowed() == b
  {
  }

  /** A book object. Its metadata are constants; only the availability flag changes,
      and only through MarkAsBorrowed and MarkAsReturned. */
  class Book {
    const isbn: string
    const title: string
    const author: string
    const year: int
    var isAvailable: bool

    constructor (data: BookData)
      ensures ToJSON() == FromData(data)
    {
      isbn := data.isbn;
      title := data.title;
      author := data.author;
      year := data.year;
      isAvailable := true;
    }

    /** The `available` getter: the availability that the serialized form reports. */
    function Available(): (a: bool)
      reads this
      ensures a == ToJSON().available
    {
      isAvailable
    }

    method MarkAsBorrowed()
      modifies this`isAvailable
      ensures ToJSON() == old(ToJSON()).MarkAsBorrowed()
    {
      isAvailable := false;
    }

    method MarkAsReturned()
      modifies this`isAvailable
      ensures ToJSON() == old(ToJSON()).MarkAsReturned()
    {
      isAvailable := true;
    }

    /** The four metadata fields as they were given, and the current availability. */
    function ToJSON(): (j: BookState)
      reads this
      ensures j.Data() == BookData(isbn, title, author, year)
      ensures j.available == isAvailable
    {
      BookState(isbn, title, author, year, isAvailable)
    }
  }
}
