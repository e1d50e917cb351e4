/** Vocabulary shared by the three controllers: the identity the authentication
    middleware resolves from the bearer token, optional request-body fields with
    JavaScript truthiness, and the (status, body) replies a handler sends. */
module Http {

  /** The `_id` of a user. The middleware that turns a bearer token into
      `req.user` is not part of this model: every handler receives the caller's
      id as a parameter. */
  type UserId = nat

  /** A request-body field that may be absent. */
  datatype Option<+T> = None | Some(value: T)

  /** JavaScript truthiness of a string-valued body field: an absent field and
      the empty string are falsy, every other string is truthy. */
  predicate Truthy(field: Option<string>) {
    field.Some? && field.value != ""
  }

  /** The value of `field || fallback`. */
  function OrElse(field: Option<string>, fallback: string): string {
    if Truthy(field) then field.value else fallback
  }

  /** What `res.status(code).json(...)` sends: a success body, or an error
      status with the `message` of its JSON body. */
  datatype Reply<+T> = Ok(status: nat, body: T) | Fail(status: nat, message: string)

  /** A handler's reply together with the store it leaves behind. */
  datatype Handled<+T, S> = Handled(reply: Reply<T>, next: S)
}
