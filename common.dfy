/** Shared vocabulary of the backend model: optional values (JavaScript's
    `undefined`), document ids, and the field errors of the ODM's validation. */
module Common {

  /** `None` stands for a field that is `undefined` in a request body or a document. */
  datatype Option<+T> = None | Some(value: T) {
    function GetOr(default: T): T {
      match this
      case Some(v) => v
      case None => default
    }
  }

  /** A document id (a stringified ObjectId). Ids are compared as strings, which is what
      `toString()` on both sides of the ownership check does. */
  type Id = string

  /** A clock reading, as stored in `createdAt` / `updatedAt`. */
  type Timestamp = int

  /** JavaScript truthiness of an optional string: `undefined` and `''` are falsy. */
  predicate Truthy(s: Option<string>) {
    s.Some? && s.value != ""
  }

  /** One entry of a ValidationError's `errors` object: the failing path and its message. */
  datatype FieldError = FieldError(path: string, message: string)

  /** `"<path>: <message>, <path>: <message>"`, the tail of a ValidationError's message. */
  function JoinFieldErrors(errs: seq<FieldError>): string
  {
    if errs == [] then ""
    else if |errs| == 1 then errs[0].path + ": " + errs[0].message
    else errs[0].path + ": " + errs[0].message + ", " + JoinFieldErrors(errs[1..])
  }

  /** The message of a ValidationError: a prefix (`Student validation failed` for a document
      save, `Validation failed` for update validators) followed by every field error. */
  function ValidationMessage(prefix: string, errs: seq<FieldError>): string
  {
    prefix + ": " + JoinFieldErrors(errs)
  }

  /** The `message` of every field error, in order. */
  function MessagesOf(errs: seq<FieldError>): (r: seq<string>)
    ensures |r| == |errs|
    ensures forall i :: 0 <= i < |errs| ==> r[i] == errs[i].message
  {
    if errs == [] then [] else [errs[0].message] + MessagesOf(errs[1..])
  }
}
