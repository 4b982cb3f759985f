/** The resource exceptions the modelled operations throw, by class. */
module ResourceErrors {

  datatype ResourceError =
    | BadRequest
    | NotFound
    | PreconditionFailed
    | InternalServerError
    | NotSupported
}
