/** The four ways a library operation is refused (src/models/error.ts), each carrying
    the isbn it was refused for, and the result type of operations that can be refused. */
module Errors {

  datatype LibError =
    | NotFound(isbn: string)        // BookNotFoundError
    | NotAvailable(isbn: string)    // BookNotAvailableError
    | Duplicate(isbn: string)       // DuplicateBookError
    | InvalidReturn(isbn: string)   // InvalidReturnError

  datatype Result<+T> = Ok(value: T) | Err(error: LibError)
}
