/** Conventions shared by the Mongoose schemas and the route handlers. */
module Records {
  import opened Wrappers

  /** A MongoDB ObjectId, treated as an opaque token (the session's `user.id` is one too). */
  type Id = string

  /** A String field that passes Mongoose's `required` validator, which is also exactly when
      JavaScript treats the optional string as truthy (`!title` is false): present and non-empty. */
  predicate Present(s: Option<string>) {
    s.Some? && s.value != ""
  }
}
