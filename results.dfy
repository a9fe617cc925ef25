/** Outcomes of the API operations: a value, or the HTTP-level error the
    framework turns an exception into. */
module Results {

  datatype Option<T> = None | Some(value: T)

  /** The value, or `default` for an absent one (a field's model default). */
  function OrElse<T>(o: Option<T>, default: T): T
  {
    if o.Some? then o.value else default
  }

  /** One entry of a 400 response body: a field, or `non_field_errors`, and
      its message. */
  datatype FieldError = FieldError(field: string, message: string)

  /** The error taxonomy of the API layer. */
  datatype Error =
    | NotAuthenticated                          // 401: no credentials
    | PermissionDenied                          // 403: a permission class refused
    | NotFound                                  // 404: get_object found no row
    | ValidationError(errors: seq<FieldError>)  // 400: every field refused, in field order
    | IntegrityError                            // 500: a database constraint refused the row
    | ServerError                               // 500: any other uncaught exception

  /** A validation error naming a single field. */
  function Invalid(field: string, message: string): Error
  {
    ValidationError([FieldError(field, message)])
  }

  datatype Result<T> = Ok(value: T) | Err(error: Error)
}
