/** The shape of a route's answer: an HTTP status code and a JSON body. */
module Http {
  /** A loaded request body: the fields marshmallow kept, or its ValidationError messages. */
  datatype Loaded<T> = Loaded(data: T) | Invalid(messages: string)

  /**
   * A JSON body: a dumped object, `{"error": ...}`, `{"message": ...}`, a validation error's
   * messages, or the page Flask serves for an exception the route did not catch.
   */
  datatype Body<T> =
    | Data(value: T)
    | Error(error: string)
    | Message(message: string)
    | ValidationErrors(messages: string)
    | ServerError

  datatype Response<T> = Response(status: int, body: Body<T>)

  /** `jsonify({"error": "<what> not found."}), 404` */
  function NotFound<T>(what: string): Response<T>
  {
    Response(404, Error(what + " not found."))
  }
}
