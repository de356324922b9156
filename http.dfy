/**
 * What an Express handler sends back: a status with a JSON value, or a
 * status with an `{ error }` body.
 */
module Http {

  datatype Reply<T> =
    | Answer(status: int, value: T)
    | Refusal(status: int, error: string)

  const Success: int := 200
  const Created: int := 201
  const BadRequest: int := 400
  const Forbidden: int := 403
  const NotFound: int := 404
  const ServerError: int := 500
}
