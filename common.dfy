/** Values shared by every part of the image generator model: bytes, optional
    values, and the outcome of an operation that can abort the script. */
module Common {

  /** One byte of an image file or of a decoded API payload. */
  type Byte = x: int | 0 <= x < 256

  /** A value that may be absent: a missing JSON key, an unset environment
      variable, an omitted command-line option. */
  datatype Option<+T> = None | Some(value: T) {
    function GetOr(default: T): T {
      match this
      case Some(v) => v
      case None => default
    }
  }

  /** Every way the script ends early (each is a `sys.exit(1)` or an uncaught
      `ValueError` in the script). */
  datatype Error =
    | MissingApiKey
    | ReferenceNotFound(path: string)
    | ApiError(code: int, body: string)
    | NetworkError(reason: string)
    | NoCandidates
    | NoImageData
    | InvalidSuffix(suffix: string)
    | EmptyName

  datatype Result<+T> = Success(value: T) | Failure(error: Error)

  /** Python truthiness of an optional string: present and non-empty. */
  predicate Truthy(s: Option<string>) {
    s.Some? && s.value != ""
  }

  function Min(a: int, b: int): int {
    if a <= b then a else b
  }
}
