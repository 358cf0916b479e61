/** Failure values shared by the services: the exception kinds the source throws,
    and the Option/Result wrappers that carry them. */
module Results {

  /** The error kinds the modelled code raises. */
  datatype Error =
    | BadRequest            // BadRequestException: a duplicate slug or email
    | NotFound              // NotFoundException: an absent role, user or organization
    | Unauthorized          // UnauthorizedException: a wrong password
    | UnresolvedPermission  // a permission config that the catalog does not hold
    | InternalError         // a failure inside a foreign library call

  datatype Option<+T> = None | Some(value: T)

  datatype Result<+T> = Ok(value: T) | Err(error: Error)

  /** JavaScript truthiness of an optional string field: present and not the empty string. */
  predicate Truthy(s: Option<string>) {
    s.Some? && s.value != ""
  }
}
