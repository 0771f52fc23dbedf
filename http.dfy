/** What a handler sends back: an HTTP status and a JSON body. */
module Http {
  import opened Wrappers

  /** A success payload, or the `{ error, details? }` object every failure sends. */
  datatype Body<T> = Data(value: T) | Failure(error: string, details: Option<string>)

  datatype Reply<T> = Reply(status: int, body: Body<T>)

  /** Status 200 is what `res.json` sends when no status was set. */
  const OK := 200
  const CREATED := 201
  const BAD_REQUEST := 400
  const UNAUTHORIZED := 401
  const FORBIDDEN := 403
  const NOT_FOUND := 404
  const INTERNAL_ERROR := 500

  /** The messages the store's own constraint checks raise, as this model names them. */
  const RECORD_NOT_FOUND := "record to update or delete not found"
  const UNIQUE_VIOLATION := "unique constraint failed"
  const FOREIGN_KEY_VIOLATION := "foreign key constraint failed"

  /** What a middleware decides: hand the request on (`next()`), or answer it with `{ error }`. */
  datatype Gate = Next | Halt(status: int, error: string)
}
