/** Option and Result values standing in for JavaScript's `undefined`/`null` and thrown errors. */
module Wrappers {

  datatype Option<+T> = None | Some(value: T)

  /** Why an operation threw. */
  datatype Fault =
    | LastWheelCannotBeDeleted   // new Error("The last wheel cannot be deleted")
    | ItemNotFound               // new Error("Item not found")
    | UndefinedAccess            // a TypeError from reading a property of `undefined`
    | UnknownAction              // new Error() in the reducer's default case
    | ParseFailure               // decompression or JSON.parse threw

  datatype Result<+T> = Ok(value: T) | Err(fault: Fault)
}
