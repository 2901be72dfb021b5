/**
 * The exceptions the meal store and the meal service can throw. The first
 * four are the web framework's HTTP exceptions; `StoreFailure` stands for any
 * other exception (a database driver error, an aborted transaction) that is
 * not an HTTP exception.
 */
module HttpErrors {

  datatype HttpError =
    | BadRequest(message: string)
    | Unauthorized(message: string)
    | NotFound(message: string)
    | InternalServerError(message: string)
    | StoreFailure(message: string)
}
