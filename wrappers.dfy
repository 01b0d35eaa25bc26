/** Option, Result and Outcome types shared by the model, and the fatal
    conditions of the reassembly run (every Ruby `raise` and every crash
    the code can reach). */
module Wrappers {

  datatype Option<+T> = None | Some(value: T) {
    /** Ruby's `x || default` for a value that may be nil. */
    function GetOr(default: T): T {
      match this
      case Some(v) => v
      case None => default
    }
  }

  /** The fatal conditions; any of them aborts the whole run. */
  datatype Fault =
    | BadName(name: string)          // filename matches no grammar ("Whoa")
    | NoKey(line: string)            // header line whose `split(":")` is empty
    | Unreadable(name: string)       // no content for a part file
    | Duplicate(path: string)        // two parts at one path that `<=>` cannot order
    | NoOwner(name: string)          // MIME part entered with an empty boundary stack
    | FunkyDuplicates(key: string)   // plain duplicate without a HEADER to arbitrate

  datatype Result<+T> = Ok(value: T) | Err(error: Fault)

  datatype Outcome = Pass | Fail(error: Fault)
}
