/** Small value types shared by the tool models: an optional parameter, a
    success-or-error outcome, and the error kinds the tools report. */
module Outcomes {

  /** A request parameter that may be absent: None, or an optional key left out
      (`params.get(key)`). */
  datatype Option<T> = None | Some(value: T) {
    function GetOr(default: T): T {
      match this
      case Some(v) => v
      case None => default
    }
  }

  /** The two outcomes of an activity: a result, or an error report. */
  datatype Result<T, E> = Success(value: T) | Failure(error: E)

  /** The error reports of the tools. */
  datatype ToolError =
    | NotFound(path: string)          // the source file does not exist
    | MissingInputs                   // duration, method or value is missing or zero
    | InvalidMethod(name: string)     // a split method other than "equal" or "duration"
    | CountNotInteger                 // "equal" with a float count, integral or not: range() refuses it
    | NoSegments                      // the splitter got an empty segment list
    | OutputNameMissing               // the audio output name was omitted: None.lower() fails
    | InvalidInput                    // a negative duration, count or step (refused only by CheckedPlan)
}
