/** Python values the hotel-comparison backend passes around, seen through Dafny.

- Option<T>: a value that may be None (a Python `Optional`).
- Result<T, E>: the outcome of Python code that may raise an exception.
- Field<T>: the state of one key of a Python dict: missing, present with the
  value None, or present with a value.
- PyError: the exceptions the modelled code raises.
 */
module Values {

  datatype Option<+T> = None | Some(value: T) {
    /** `value if value is not None else default` */
    function GetOr(default: T): T {
      match this
      case Some(v) => v
      case None => default
    }
  }

  datatype Result<+T, +E> = Success(value: T) | Failure(error: E)

  /** One key of a Python dict: `Absent` (the key is missing), `Null` (the key
      maps to None) or `Present(value)`. */
  datatype Field<+T> = Absent | Null | Present(value: T) {
    /** `d.get(key, default)`: the default only for a missing key; None stays None. */
    function Get(default: T): Option<T> {
      match this
      case Absent => Some(default)
      case Null => None
      case Present(v) => Some(v)
    }
  }

  /** The exceptions raised by the modelled code: `KeyError(key)` for `d[key]`
      on a missing key, `AttributeError(attr)` for calling the string method
      `attr` on None, `ValueError(message)` for a failed lookup. */
  datatype PyError =
    | KeyError(key: string)
    | AttributeError(attr: string)
    | ValueError(message: string)
}
