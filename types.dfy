/** The plain data shapes the catalog passes around (src/models/types.ts). */
module Types {

  datatype Option<+T> = None | Some(value: T)

  /** A point in time, as the millisecond count a JavaScript Date holds.
      The model never reads a clock: callers pass the current time in. */
  type Time = int

  /** What a caller supplies to register a book. */
  datatype BookData = BookData(isbn: string, title: string, author: string, year: int)

  /** One loan: which book, who borrowed it, when, and when (if yet) it came back. */
  datatype BorrowRecord = BorrowRecord(isbn: string, borrowerId: string, borrowDate: Time, returnDate: Option<Time>)
}
