/** How a call into the handler or into the cursor ends: Java `null`, the two exceptions the
    handler can raise, and a loop that never exits. */
module Exits {

  /** A Java reference that may be `null`. */
  datatype Option<+T> = None | Some(value: T)

  /** The exceptions that can leave the handler: `java.sql.SQLException` from the cursor, and
      the `NullPointerException` of `stream` dereferencing a `null` list. */
  datatype Exception = SQLException | NullPointerException

  /** The outcome of a call: it returns a value, throws, or never returns. `Exit` is
      failure-compatible, so `:-` propagates a throw (or a hang) to the caller as Java does. */
  datatype Exit<+T> = Return(value: T) | Throw(exception: Exception) | Hang {

    predicate IsFailure() {
      !Return?
    }

    function PropagateFailure<U>(): Exit<U>
      requires !Return?
    {
      if Throw? then Throw(exception) else Hang
    }

    function Extract(): T
      requires Return?
    {
      value
    }
  }
}
