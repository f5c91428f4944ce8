/** Values shared by the whole model: optional values, the outcome of a
    resolver call and the errors a call can end with. */
module Common {

  datatype Option<T> = None | Some(value: T)

  /** A resolver either returns a value or throws. */
  datatype Result<T> = Ok(value: T) | Err(error: Error)

  /** Every error the resolvers throw themselves is a GraphQLError whose
      extensions.code is BAD_USER_INPUT, "not authenticated" included; where
      there is an offending argument it travels in extensions.invalidArgs.
      Internal stands for an exception raised by the JavaScript runtime or by
      a library (a property read on null, a token that does not verify),
      which the server reports as an internal error. */
  datatype Error =
    | BadUserInput(message: string, invalidArgs: Option<string>)
    | Internal(message: string)

  /** JavaScript truthiness of an optional string: null, undefined and the
      empty string are all falsy. */
  predicate Truthy(s: Option<string>) {
    s.Some? && s.value != ""
  }
}
