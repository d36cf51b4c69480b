/** Optional values and the ways a merge run can stop early. */
module Outcomes {

  datatype Option<+T> = None | Some(value: T)

  /** The exceptions and exits of the merger that end a run before any output is written. */
  datatype Failure =
    | ValueError     // int() on a string that is not a decimal integer
    | StopIteration  // next() over a generator that finds nothing
    | EOFError       // input() after the operator's input is exhausted
    | Quit           // the operator typed 'q' at a prompt (sys.exit(1))

  datatype Result<+T> = Ok(value: T) | Err(error: Failure)
}
