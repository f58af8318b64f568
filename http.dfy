/** What a registry request can come back with, reduced to what the package
    manager inspects: a transport error, or a response with its status, the
    status's canonical reason phrase, and its body (as bytes and as JSON). */
module Http {
  import opened Wrappers
  import opened Text

  /** A JSON value inside an object or an array: a string, or any other
      value with the description serde gives of it in an "invalid type"
      message (such as "integer `1`"). */
  datatype JsonField = JString(text: string) | JNonString(unexpected: string)

  /** The body read as JSON: an object with its members, an array with its
      elements, any other valid JSON value (with serde's description of it),
      or text that is not JSON (with the parser's message). */
  datatype Json =
    | JObject(members: map<string, JsonField>)
    | JArray(items: seq<JsonField>)
    | JScalar(unexpected: string)
    | JInvalid(error: string)

  datatype Body = Body(bytes: seq<bv8>, json: Json)

  /** A status code is three digits (100 to 999, as `StatusCode` enforces). */
  type StatusCode = s: nat | 100 <= s <= 999 witness 200

  datatype HttpOutcome =
    | Transport(error: string)
    | Response(status: StatusCode, reason: Option<string>, body: Body)

  datatype Verb = Get | Post | Put

  /** A request: verb, URL, `Authorization` header if any, and payload. */
  datatype Request = Request(verb: Verb, url: string, authorization: Option<string>, payload: seq<bv8>)

  /** A plain `GET` with no header and no payload. */
  function GetRequest(url: string): Request
  {
    Request(Get, url, None, [])
  }

  /** `StatusCode::is_success`: the 2xx class (RFC 9110 section 15.3). */
  predicate IsSuccess(status: StatusCode)
  {
    200 <= status <= 299
  }

  /** `StatusCode::is_client_error`: the 4xx class (RFC 9110 section 15.5). */
  predicate IsClientError(status: StatusCode)
  {
    400 <= status <= 499
  }

  /** `Display` of a status: the code, a space, and the canonical reason, or
      `<unknown status code>` when the code has none. */
  function StatusText(status: StatusCode, reason: Option<string>): string
  {
    NatToString(status) + " " + (if reason.Some? then reason.value else "<unknown status code>")
  }

  /** A status is displayed starting with its three digits. */
  lemma StatusTextStartsWithCode(status: StatusCode, reason: Option<string>)
    ensures var t := StatusText(status, reason);
      |t| >= 4 && (forall i :: 0 <= i < 3 ==> IsDigit(t[i])) && t[3] == ' '
  {
    var d := NatToString(status);
    assert |d| == 3 by {
      if status < 1000 {
        assert d == NatToString(status / 10) + [DigitChar(status % 10)];
        assert NatToString(status / 10) == NatToString(status / 100) + [DigitChar((status / 10) % 10)];
      }
    }
  }

  const UNKNOWN_ERROR := "Unknown error"

  /** The registry's error text: the string member `message` of a JSON
      object, and "Unknown error" for anything else. This is both
      `get_error_message_from_response` and the inline variant in the
      latest-version lookups. */
  function ErrorMessage(json: Json): string
  {
    match json
    case JObject(members) =>
      if "message" in members && members["message"].JString? then members["message"].text else UNKNOWN_ERROR
    case _ => UNKNOWN_ERROR
  }

  /** A registry message reaches the user verbatim, whatever else the
      object holds. */
  lemma ErrorMessageIsServerMessage(members: map<string, JsonField>, message: string)
    ensures ErrorMessage(JObject(members["message" := JString(message)])) == message
  {
  }

  /** Without a string `message` member the text is "Unknown error". */
  lemma ErrorMessageFallback(json: Json)
    requires StringMember(json, "message").None?
    ensures ErrorMessage(json) == UNKNOWN_ERROR
  {
  }

  /** A string member of a JSON object, if the body is an object holding one. */
  function StringMember(json: Json, key: string): Option<string>
  {
    if json.JObject? && key in json.members && json.members[key].JString? then Some(json.members[key].text)
    else None
  }
}
