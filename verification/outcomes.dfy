/** Failure results shared by the whole model. Each error kind is named after
    the .NET exception the library lets escape in that situation. */
module Outcomes {

  datatype Error =
    | InvalidArgument      // ArgumentException (bad argument, duplicate dictionary key)
    | IndexOutOfRange      // IndexOutOfRangeException (array indexing)
    | ArgumentOutOfRange   // ArgumentOutOfRangeException (List indexing, new string(c, n < 0), Substring)
    | InvalidOperation     // InvalidOperationException (Min, Max, Last, First of an empty sequence)
    | NoMode               // the library's own Exception("no mode")

  datatype Result<+T> = Ok(value: T) | Err(error: Error)
}
