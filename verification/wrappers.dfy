/** Option and Result, the two failure-carrying shapes the model uses. */
module Wrappers {

  datatype Option<+T> = None | Some(value: T)

  datatype Result<+T, +E> = Ok(value: T) | Err(error: E)
}

/** The ways a report request can fail. In the Rust program the last three are
    panics (`unwrap` on a missing label, `panic!` in the factory, `todo!()`);
    here they are values so that the failing path can be stated. */
module Errors {

  datatype ReportError =
    | CsvError(message: string)   // a record the `csv` reader rejects
    | DecodeError                 // Shift_JIS decoding reported invalid bytes
    | MissingLabel(name: string)  // a field name absent from the label table
    | UnknownId(id: string)       // a report kind the factory does not know
    | NotImplemented              // the dividend manager's `set` is `todo!()`
}
