/** Failure-carrying values shared by the model, and the exceptions that
    sched-cli.py raises on the paths the model covers. */
module Common {

  datatype Option<+T> = None | Some(value: T)

  datatype Result<+T, +E> = Ok(value: T) | Err(error: E)

  /** A step that returns nothing but may raise. */
  datatype Outcome<+E> = Pass | Fail(error: E)

  /** One constructor per exception the modelled code can raise. */
  datatype Error =
    /** KeyError on the parsed redirect query (`uargs['userid']`, `uargs['session']`). */
    | KeyMissing(key: string)
    /** AttributeError: the credential field was never set (`self.userid`). */
    | AttributeMissing(name: string)
    /** TypeError: the login response had no `Location` header (`'USERID=' in None`). */
    | NoRedirect
    /** ValueError("Login failed"). */
    | LoginFailed
    /** ValueError("Login information expired"). */
    | LoginExpired
    /** requests.HTTPError from `raise_for_status`. */
    | HttpStatus(code: int)
    /** `open` failed: no such file, or `state_path` is not a path string. */
    | CannotOpen
    /** json.JSONDecodeError: the state file does not hold JSON text. */
    | NotJson
    /** `__dict__.update` refused the loaded document: it is not a JSON object. */
    | NotAnObject
    /** dateutil could not parse this cell text. */
    | UnparsableDate(text: string)
}
