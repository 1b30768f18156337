/** What a route hands back to the client: a body with status 200, or an
    `HTTPException` with its status code and detail message. */
module Http {
  datatype Response<T> = Success(body: T) | HttpError(status: nat, detail: string)

  const BadRequest: nat := 400
  const NotFound: nat := 404

  /** Values the list routes use for omitted `skip` and `limit` parameters. */
  const DefaultSkip: nat := 0
  const DefaultLimit: nat := 100
}
