/**
 * The credential service as the other components see it. Password hashing
 * (BCrypt), verification and JWT signing are library calls whose workings are
 * not modelled: a value of `AuthService` supplies them as functions.
 */
module Credentials {
  import opened Models

  datatype AuthService = AuthService(
    hashPassword: string -> string,
    verifyPassword: (string, string) -> bool,
    generateJwtToken: Manager -> string)
  {
    /** The one property the services rely on: a password verifies against its own hash. */
    ghost predicate Sound()
    {
      forall p :: verifyPassword(p, hashPassword(p))
    }
  }
}
