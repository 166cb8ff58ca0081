/** Small value types shared by both record kinds: optional values, the outcome
    of a store operation, and the HTTP-level reply of a route handler. */
module Wrappers {

  datatype Option<+T> = None | Some(value: T)

  /** Identifier of an authenticated principal. The engine only ever compares
      two of them for equality. */
  type UserId = string

  /** Identifier the store assigns to a document when it is created. */
  type DocId = nat

  /** What a route handler answers: a status code, the message the source fixes
      for that status ("" when it sends none), and the payload, if any. */
  datatype Response<+T> = Response(status: int, message: string, body: Option<T>)

  /** The two ways the store can refuse an insert: the document fails the
      schema's validators, or it collides on a unique index. */
  datatype StoreError = ValidationError | DuplicateKey

  datatype Result<+T> = Ok(value: T) | Err(error: StoreError)

  const InternalError: string := "Internal server error"

  /** JavaScript truthiness of an optional string field of a request body:
      absent and empty are both false. */
  predicate Present(s: Option<string>) {
    s.Some? && s.value != ""
  }
}
