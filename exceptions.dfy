/**
 * The delivery-failure record raised when a webhook answers with a response
 * whose `ok` flag is false.
 */
module Exceptions {
  import opened Wrappers
  import opened Decimal
  import opened Http

  /** The three request details kept for diagnosis, and nothing else. */
  datatype RequestedParams = RequestedParams(slackWebHook: Option<string>, headers: Headers, payload: Payload)

  const NotSentPrefix: string := "Slack message was not sent successfully ["
  const ParamsIntro: string := "] received, requested params: "

  /** A quoted text (escaping of quotes inside it is not modelled). */
  function Quoted(s: string): string {
    "'" + s + "'"
  }

  function OptionalText(s: Option<string>): string {
    match s
    case None => "None"
    case Some(v) => Quoted(v)
  }

  function HeaderEntries(headers: Headers): string {
    if headers == [] then ""
    else
      var entry := Quoted(headers[0].0) + ": " + Quoted(headers[0].1);
      if |headers| == 1 then entry else entry + ", " + HeaderEntries(headers[1..])
  }

  /** The JSON text of the body `{"text": ...}`. */
  function JsonText(payload: Payload): string {
    "{\"text\": \"" + payload.text + "\"}"
  }

  /** The requested params as a dict display. */
  function ParamsText(params: RequestedParams): string {
    "{'slack_web_hook': " + OptionalText(params.slackWebHook)
    + ", 'headers': {" + HeaderEntries(params.headers)
    + "}, 'payload': " + Quoted(JsonText(params.payload)) + "}"
  }

  /** The message used when no explicit message is given. */
  function DefaultExceptionMessage(statusCode: nat, params: RequestedParams): string {
    NotSentPrefix + NatToString(statusCode) + ParamsIntro + ParamsText(params)
  }

  /** The default message names the status code (readable back after its fixed
      opening) and ends with the requested params. */
  lemma DefaultMessageMentionsStatusAndParams(statusCode: nat, params: RequestedParams)
    ensures var m := DefaultExceptionMessage(statusCode, params);
      && |NotSentPrefix| <= |m|
      && m[..|NotSentPrefix|] == NotSentPrefix
      && ReadLeadingNat(m[|NotSentPrefix|..]) == statusCode
      && |ParamsText(params)| <= |m|
      && m[|m| - |ParamsText(params)|..] == ParamsText(params)
  {
    var rest := ParamsIntro + ParamsText(params);
    SplitAfterPrefix(NotSentPrefix, NatToString(statusCode), ParamsIntro, ParamsText(params));
    assert rest[0] == ']';
    ReadBackRenderedNat(statusCode, rest);
  }

  lemma SplitAfterPrefix(prefix: string, middle: string, intro: string, tail: string)
    ensures var m := prefix + middle + intro + tail;
      && m[..|prefix|] == prefix
      && m[|prefix|..] == middle + (intro + tail)
      && m[|m| - |tail|..] == tail
  {
  }

  /** Python truthiness of an optional text: present and not empty. */
  predicate Truthy(message: Option<string>) {
    message.Some? && message.value != ""
  }

  /** `message or default`: the explicit message when truthy, the default otherwise. */
  function StoredMessage(message: Option<string>, statusCode: nat, params: RequestedParams): (m: string)
    ensures m != ""
    ensures (message.Some? && m == message.value) <==> Truthy(message)
  {
    if Truthy(message) then message.value else DefaultExceptionMessage(statusCode, params)
  }

  /** What the failure keeps of a response's request. */
  function RequestedParamsOf(response: Response): RequestedParams {
    RequestedParams(response.request.url, response.request.headers, response.request.body)
  }

  class SlackMessageException {
    const statusCode: nat
    const requestedParams: RequestedParams
    const message: string

    constructor (response: Response, message: Option<string> := None)
      ensures statusCode == response.statusCode
      ensures requestedParams == RequestedParamsOf(response)
      ensures this.message == StoredMessage(message, statusCode, requestedParams)
    {
      var params := RequestedParamsOf(response);
      statusCode := response.statusCode;
      requestedParams := params;
      this.message := StoredMessage(message, response.statusCode, params);
    }

    function DefaultMessage(): string {
      DefaultExceptionMessage(statusCode, requestedParams)
    }

    /** This failure is the one raised, without an explicit message, for `response`. */
    predicate Describes(response: Response) {
      && statusCode == response.statusCode
      && requestedParams == RequestedParamsOf(response)
      && message == DefaultMessage()
    }
  }
}
