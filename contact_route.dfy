/** The contact endpoint's POST handler: checks that the parsed body carries
    an email and a message and answers with a status and a JSON payload. */
module ContactRoute {
  import opened Wrappers

  /** The outcome of `await request.json()` and destructuring. A field that is
      not in the body is None. */
  datatype RequestBody = ParseFailure | Parsed(email: Option<string>, message: Option<string>)

  datatype Payload = ErrorPayload(error: string) | SuccessPayload(success: bool)

  datatype Response = Response(status: int, payload: Payload)

  const MissingFields: string := "Email and message are required"
  const ProcessingFailed: string := "Failed to process contact form"

  /** JavaScript truthiness of a string field: present and not empty. */
  predicate Truthy(f: Option<string>)
  {
    f.Some? && f.value != ""
  }

  /** `POST`: 500 when the body cannot be read, 400 when a field is missing
      or empty, otherwise `{ success: true }` with the default status 200. */
  function Post(body: RequestBody): (r: Response)
    ensures r.status == 500 <==> body.ParseFailure?
    ensures r.status == 500 ==> r.payload == ErrorPayload(ProcessingFailed)
    ensures r.status == 400 <==> body.Parsed? && (!Truthy(body.email) || !Truthy(body.message))
    ensures r.status == 400 ==> r.payload == ErrorPayload(MissingFields)
    ensures r.status == 200 <==> body.Parsed? && Truthy(body.email) && Truthy(body.message)
    ensures r.status == 200 ==> r.payload == SuccessPayload(true)
  {
    match body
    case ParseFailure => Response(500, ErrorPayload(ProcessingFailed))
    case Parsed(email, message) =>
      if !Truthy(email) || !Truthy(message) then Response(400, ErrorPayload(MissingFields))
      else Response(200, SuccessPayload(true))
  }

  /** The email is never checked for format: any two non-empty addresses are
      treated alike. */
  lemma EmailFormatUnchecked(e1: string, e2: string, message: Option<string>)
    requires e1 != "" && e2 != ""
    ensures Post(Parsed(Some(e1), message)) == Post(Parsed(Some(e2), message))
  {
  }

  /** An empty field is answered exactly like a missing one. */
  lemma EmptyLikeMissing(email: Option<string>, message: Option<string>)
    ensures Post(Parsed(Some(""), message)) == Post(Parsed(None, message))
    ensures Post(Parsed(email, Some(""))) == Post(Parsed(email, None))
  {
  }
}
