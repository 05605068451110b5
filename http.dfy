/**
 * The outbound HTTP call, abstracted: what is posted, what comes back, and
 * a client whose remote side is an oracle chosen by the caller.
 */
module Http {
  import opened Wrappers

  /** Header name/value pairs in insertion order, as a Python dict keeps them. */
  type Headers = seq<(string, string)>

  /** The JSON object `{'text': ...}` sent as the request body. */
  datatype Payload = Payload(text: string)

  /** The request as the HTTP library prepared and sent it. */
  datatype PreparedRequest = PreparedRequest(url: Option<string>, headers: Headers, body: Payload)

  /** A received response, with the request it answers. */
  datatype Response = Response(statusCode: nat, request: PreparedRequest) {
    /** The library's `ok`: false exactly for the client- and server-error ranges. */
    predicate Ok() {
      !(400 <= statusCode < 600)
    }
  }

  /** A post either gets a response or raises (connection error, invalid URL, ...). */
  datatype PostResult = Responded(response: Response) | Raised(error: string)

  /** The remote side: what the `n`-th post of a client gets back. */
  type Responder = (nat, PreparedRequest) -> PostResult

  /** The HTTP library refuses a request without a URL: posting it raises (a missing
      schema) rather than getting a response. */
  ghost predicate NullUrlRaises(respond: Responder) {
    forall n: nat, request: PreparedRequest :: request.url.None? ==> respond(n, request).Raised?
  }

  /** For every status code HTTP defines, `ok` means "below 400", so 3xx counts as ok. */
  lemma OkMeansBelow400(r: Response)
    requires r.statusCode < 600
    ensures r.Ok() <==> r.statusCode < 400
  {
  }

  /** An HTTP client that records every request it posts. */
  class WebhookClient {
    const respond: Responder
    var posted: seq<PreparedRequest>

    constructor (respond: Responder)
      ensures this.respond == respond && posted == []
    {
      this.respond := respond;
      posted := [];
    }

    method Post(request: PreparedRequest) returns (result: PostResult)
      modifies this
      ensures posted == old(posted) + [request]
      ensures result == respond(|old(posted)|, request)
    {
      result := respond(|posted|, request);
      posted := posted + [request];
    }
  }
}
