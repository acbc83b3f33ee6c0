/** Error values and result wrappers shared by the whole SPF checker model.

    Go functions in the checker return `(value, error)` pairs; here they return a
    `Result`. The recursion through `include` mechanisms is unbounded in the Go
    code, so the expansion functions take a fuel argument and report `OutOfFuel`
    when it is exhausted: that outcome stands for "the Go code would still be
    recursing", and it is kept apart from ordinary errors on purpose.
 */
module Outcomes {

  /** The errors the checker can produce. */
  datatype Error =
    /** The package sentinel `ErrNoSPFRecords`: the TXT answer for the domain was empty. */
    | NoSpfRecords
    /** `findSPFRecord` found zero or more than one `v=spf1` string. */
    | SpfRecordCount
    /** `parseOtherRecord` was given a record kind other than `a` or `mx`. */
    | UnknownRecord
    /** `processEmail` found fewer or more than one `@`. */
    | AtSignCount
    /** A resolver failure for `name` (NXDOMAIN, SERVFAIL, timeout, ...). */
    | LookupFailed(name: string, reason: string)
    /** `net.ParseCIDR` rejected `text`. */
    | CidrSyntax(text: string)

  datatype Option<T> = None | Some(value: T)

  /** A Go `(value, error)` pair in which exactly one side is meaningful. */
  datatype Result<T> = Ok(value: T) | Err(error: Error) {

    predicate IsFailure() {
      Err?
    }

    function PropagateFailure<U>(): Result<U>
      requires Err?
    {
      Err(error)
    }

    function Extract(): T
      requires Ok?
    {
      value
    }

    /** The value on success, `default` otherwise. */
    function GetOr(default: T): T {
      match this
      case Ok(v) => v
      case Err(_) => default
    }
  }

  /** The outcome of a fuel-bounded computation: either it finished with a
      result, or the fuel ran out before the unbounded Go recursion would. */
  datatype Fueled<T> = Finished(result: Result<T>) | OutOfFuel
}
