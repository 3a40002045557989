/** The token validator: its fixed policy, the request it would send, and the short-circuiting
    evaluation of the endpoint's answer. The HTTP round trip and the JSON parse are inputs. */
module Server {
  import opened Wrappers
  import opened Strings
  import opened Responses

  /** An HTTP status code as carried by .NET's `HttpStatusCode` (any integer value). */
  type StatusCode = int

  const OK: StatusCode := 200

  /** The fixed verification endpoint the request is posted to. */
  const VerifyUrl: string := "https://www.google.com/recaptcha/api/siteverify"

  /** The literal error text of a bypassed token. */
  const InternalAllowText: string := "Internal allow"

  /** The 2xx class of section 15.3 of RFC 9110, as `IsSuccessStatusCode` tests it. */
  predicate IsSuccessStatusCode(code: StatusCode)
  {
    200 <= code <= 299
  }

  /** The validator's configuration, fixed at construction. A null string is represented by "". */
  datatype Policy = Policy(
    securityKey: string,
    minScore: real,
    allowAlwaysCode: string,
    allowHost: string
  )

  /** What the HTTP round trip and the JSON parse delivered: the status code, the body read as
      a string, and the deserialised record (None when the parse yields null). */
  datatype Transport = Transport(
    statusCode: StatusCode,
    body: string,
    parsed: Option<ReCaptchaResponse>
  )

  /** The reason carried by a result. Interpolated messages keep their data, not their text. */
  datatype Error =
    | InternalAllow
    | BadStatus(status: StatusCode)
    | EmptyBody(status: StatusCode)
    | Unparsable(status: StatusCode)
    | Rejected(codes: string)
    | BadScore(score: real)
    | BadHost(hostname: string)
    | BadAction(actual: string, expected: string)
    | NoError

  /** The outcome returned to the caller. Unset reference properties are None. */
  datatype ValidateTokenResponse = ValidateTokenResponse(
    success: bool,
    error: Error,
    statusCode: StatusCode,
    httpResponseBody: Option<string>,
    response: Option<ReCaptchaResponse>
  )

  /** A form-encoded POST to `url`. */
  datatype Request = Request(url: string, form: seq<(string, string)>)

  /** The validator either decides before any I/O or builds the request to send. */
  datatype Step = Decided(outcome: ValidateTokenResponse) | Send(request: Request)

  /** The exact error text where the source fixes it; None where the text interpolates a
      .NET rendering (an enum name or a float) that the model does not reproduce. The text
      alone does not identify the outcome: an empty text is either a success or a rejection
      whose codes join to "", and "Internal allow" is either the bypass or a rejection whose
      codes join to that same text. */
  function ErrorText(e: Error): (r: Option<string>)
    ensures r.Some? <==> (e.InternalAllow? || e.NoError? || e.Rejected?)
    ensures r == Some("") ==> e.NoError? || (e.Rejected? && e.codes == "")
    ensures r == Some(InternalAllowText) ==> e.InternalAllow? || (e.Rejected? && e.codes == InternalAllowText)
  {
    match e
    case InternalAllow => Some(InternalAllowText)
    case Rejected(codes) => Some(codes)
    case NoError => Some("")
    case _ => None
  }

  /** The value of the first form field called `name`, if any. */
  function FormValue(form: seq<(string, string)>, name: string): (r: Option<string>)
    ensures r.None? <==> forall i :: 0 <= i < |form| ==> form[i].0 != name
    ensures r.Some? ==> exists i :: 0 <= i < |form| && form[i] == (name, r.value)
  {
    if |form| == 0 then None
    else if form[0].0 == name then Some(form[0].1)
    else
      var r := FormValue(form[1..], name);
      assert forall i :: 1 <= i < |form| ==> form[i] == form[1..][i - 1];
      r
  }

  /** The bypass fires only for a configured (non-empty) code that the token equals exactly. */
  predicate BypassMatches(policy: Policy, token: string)
  {
    policy.allowAlwaysCode != "" && token == policy.allowAlwaysCode
  }

  /** The part of the validation that runs before the network: the bypass decision, or the
      request carrying the secret and the token (and no client IP). */
  function Begin(policy: Policy, token: string): (s: Step)
    ensures s.Decided? <==> BypassMatches(policy, token)
    ensures s.Decided? ==> s.outcome == ValidateTokenResponse(true, InternalAllow, OK, None, None)
    ensures s.Send? ==> s.request.url == VerifyUrl
    ensures s.Send? ==> FormValue(s.request.form, "secret") == Some(policy.securityKey)
    ensures s.Send? ==> FormValue(s.request.form, "response") == Some(token)
    ensures s.Send? ==> FormValue(s.request.form, "remoteip") == None
  {
    if policy.allowAlwaysCode != "" && token == policy.allowAlwaysCode then
      Decided(ValidateTokenResponse(true, InternalAllow, OK, None, None))
    else
      Send(Request(VerifyUrl, [("secret", policy.securityKey), ("response", token)]))
  }

  /** A failed outcome that keeps the status code and raw body for diagnostics. */
  function Failed(e: Error, t: Transport, attached: Option<ReCaptchaResponse>): ValidateTokenResponse
  {
    ValidateTokenResponse(false, e, t.statusCode, Some(t.body), attached)
  }

  /** Interprets the endpoint's answer; the checks run in source order and the first failure
      decides. Every outcome carries the transport's status code and body; the parsed record is
      attached exactly when the parse was reached and produced one; success and an empty error
      go together. */
  function Evaluate(policy: Policy, action: string, t: Transport): (r: ValidateTokenResponse)
    ensures r.statusCode == t.statusCode
    ensures r.httpResponseBody == Some(t.body)
    ensures r.success <==> r.error == NoError
    ensures r.error != InternalAllow
    ensures r.response.Some? <==> IsSuccessStatusCode(t.statusCode) && t.body != "" && t.parsed.Some?
    ensures r.response.Some? ==> r.response == t.parsed
  {
    if !IsSuccessStatusCode(t.statusCode) then
      Failed(BadStatus(t.statusCode), t, None)
    else if t.body == "" then
      Failed(EmptyBody(t.statusCode), t, None)
    else
      match t.parsed
      case None => Failed(Unparsable(t.statusCode), t, None)
      case Some(p) =>
        if !p.success then
          Failed(Rejected(Join(p.errorCodes.GetOr([]))), t, Some(p))
        else if p.score < policy.minScore then
          Failed(BadScore(p.score), t, Some(p))
        else if policy.allowHost != "" && p.hostname != policy.allowHost then
          Failed(BadHost(p.hostname), t, Some(p))
        else if action != "" && p.action != action then
          Failed(BadAction(p.action, action), t, Some(p))
        else
          ValidateTokenResponse(true, NoError, t.statusCode, Some(t.body), Some(p))
  }

  /** `ValidateTokenAsync(token, action)`, where `t` is what sending `Begin`'s request returned.
      The outcome is a success either with the "Internal allow" marker or with an empty error. */
  function ValidateToken(policy: Policy, token: string, action: string, t: Transport): (r: ValidateTokenResponse)
    ensures r.success ==> ErrorText(r.error) == Some(InternalAllowText) || ErrorText(r.error) == Some("")
    ensures r.error == InternalAllow <==> BypassMatches(policy, token)
  {
    match Begin(policy, token)
    case Decided(outcome) => outcome
    case Send(_) => Evaluate(policy, action, t)
  }
}
