/** Result types shared by the model of tntnet's ecpp component layer. */
module Outcomes {

  /** A possibly missing value; `None` stands for a null pointer. */
  datatype Option<+T> = None | Some(value: T)

  /**
   * The three ways a lookup in tntnet ends: a value, a `NotFoundException`
   * (the only failure that the resolution protocol catches and recovers
   * from), or any other exception, which is never caught here.
   */
  datatype Outcome<+T> =
    | Found(value: T)
    | NotFound(what: string)
    | Fatal(error: string)
}
