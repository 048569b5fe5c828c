/** Failure-compatible wrappers shared by every module of the model.

    The Python code signals failure by raising; the model returns `Err` with the
    class of the exception that would have been raised, so that every error path
    of the source is an ordinary value here.
 */
module Results {

  datatype Option<+T> = None | Some(value: T)

  /** The exception classes the modelled code raises or lets through. */
  datatype Error =
    | TypeError(msg: string)
    | IndexError(msg: string)
    | KeyError(msg: string)
    | ValueError(msg: string)
    | DbError(msg: string)      // psycopg.Error: the statement was rolled back
    | HttpError(msg: string)    // requests.HTTPError from the remote pager
    | RemoteError(msg: string)  // any other exception raised by the remote pager
  {
    /** `str(err)` */
    function Message(): string {
      match this
      case TypeError(m) => m
      case IndexError(m) => m
      case KeyError(m) => m
      case ValueError(m) => m
      case DbError(m) => m
      case HttpError(m) => m
      case RemoteError(m) => m
    }
  }

  /** The `TypeError` of a call whose keyword argument `name` repeats a
      parameter that is already bound. */
  function MultipleValues(callee: string, name: string): Error {
    TypeError(callee + "() got multiple values for argument '" + name + "'")
  }

  /** No element occurs twice (the keys of a Python dict, the ids of a table). */
  predicate Distinct<T(==)>(xs: seq<T>) {
    forall i, j | 0 <= i < j < |xs| :: xs[i] != xs[j]
  }

  datatype Result<+T> = Ok(value: T) | Err(error: Error) {

    predicate IsFailure() {
      Err?
    }

    function PropagateFailure<U>(): Result<U>
      requires Err?
    {
      Err(error)
    }

    function Extract(): T
      requires Ok?
    {
      value
    }
  }
}
