// Small value types and PHP/JavaScript truthiness rules shared by the model.

module Common {

  /** An optional value: a nullable column, an absent request key, a null reference. */
  datatype Option<T> = None | Some(value: T) {
    function GetOr(default: T): T {
      match this
      case Some(v) => v
      case None => default
    }
  }

  /** PHP's empty() on a string: true for "" and also for "0". */
  predicate PhpEmpty(s: string) {
    s == "" || s == "0"
  }

  /** A nullable PHP string is truthy when it is non-null and not empty(). */
  predicate PhpTruthy(s: Option<string>) {
    s.Some? && !PhpEmpty(s.value)
  }

  /** str_starts_with / String.prototype.startsWith. */
  predicate StartsWith(s: string, prefix: string) {
    |prefix| <= |s| && s[..|prefix|] == prefix
  }

  /** A request key that may be missing, sent as null, or sent with a value. */
  datatype Input<T> = Absent | Null | Given(value: T)

  /**
   * A controller's JSON answer: success with its status code, 422 with the
   * keys of the failing fields, 403, 404, or 500 when the write failed.
   */
  datatype Response = Ok(code: int) | Invalid(errors: set<string>) | Forbidden | NotFound | Failed {
    function StatusCode(): int {
      match this
      case Ok(code) => code
      case Invalid(_) => 422
      case Forbidden => 403
      case NotFound => 404
      case Failed => 500
    }
  }
}
