/** Values shared by the Python scrapers and the TypeScript front end:
    optional strings (Python `None`, JSON `null`), their truthiness, and the
    string-or-null JSON values the article files carry. */
module Values {

  datatype Option<+T> = None | Some(value: T) {
    function GetOr(default: T): T {
      match this
      case Some(v) => v
      case None => default
    }
  }

  /** Python's `if s:` (and JavaScript's `if (s)`) on an optional string:
      false for `None`/`null` and for the empty string. */
  predicate Truthy(s: Option<string>) {
    s.Some? && s.value != ""
  }

  /** A JSON value as the article files hold it in a string-typed field:
      either a string or `null` (other JSON kinds are not modelled). */
  datatype JVal = JNull | JStr(str: string)
}
