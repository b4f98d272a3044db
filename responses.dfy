/**
 * The JSON responses the controllers answer with. Serialization is not
 * modelled: a body names what was serialized (a book row with the version
 * asked for, an author row, the cached list payload, the violation list).
 */
module Responses {
  import opened Wrappers
  import opened Entities
  import opened Store

  const Ok: int := 200
  const Created: int := 201
  const NoContent: int := 204
  const BadRequest: int := 400
  const NotFound: int := 404
  const ServerError: int := 500

  datatype Body =
    | NoBody
    | ListDocument(payload: string)
    | BookDocument(id: nat, row: BookRow, version: Option<string>)
    | AuthorDocument(id: nat, author: AuthorRow)
    | AuthorListDocument(authors: map<nat, AuthorRow>)
    | ViolationDocument(violations: seq<Violation>)
    | ErrorPage

  datatype Response = Response(status: int, body: Body, location: Option<string>)

  /** What the framework answers when a route's entity argument has no row. */
  const EntityNotFound: Response := Response(NotFound, ErrorPage, None)

  /** What the framework answers for an uncaught error. */
  const InternalError: Response := Response(ServerError, ErrorPage, None)
}
