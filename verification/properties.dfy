/** Properties the validator promises its callers, stated over `ValidateToken`. */
module Properties {
  import opened Wrappers
  import opened Strings
  import opened Responses
  import opened Server

  /** A configured bypass code matched by the token allows it with the "Internal allow" marker
      and status OK; no request is built and the transport has no influence on the outcome. */
  lemma BypassAllowsWithoutRequest(policy: Policy, token: string, action: string, t1: Transport, t2: Transport)
    requires policy.allowAlwaysCode != "" && token == policy.allowAlwaysCode
    ensures Begin(policy, token).Decided?
    ensures ValidateToken(policy, token, action, t1) == ValidateToken(policy, token, action, t2)
    ensures ValidateToken(policy, token, action, t1).success
    ensures ErrorText(ValidateToken(policy, token, action, t1).error) == Some("Internal allow")
    ensures ValidateToken(policy, token, action, t1).statusCode == OK
    ensures ValidateToken(policy, token, action, t1).httpResponseBody.None?
    ensures ValidateToken(policy, token, action, t1).response.None?
  {
  }

  /** An empty bypass code never bypasses, not even for an empty token: the request is sent
      and the answer is evaluated. */
  lemma EmptyBypassCodeNeverBypasses(policy: Policy, token: string, action: string, t: Transport)
    requires policy.allowAlwaysCode == ""
    ensures Begin(policy, token).Send?
    ensures ValidateToken(policy, token, action, t) == Evaluate(policy, action, t)
    ensures ValidateToken(policy, token, action, t).error != InternalAllow
  {
  }

  /** A status outside 2xx fails with no parsed record, keeping the status code and raw body. */
  lemma BadStatusFails(policy: Policy, token: string, action: string, t: Transport)
    requires !BypassMatches(policy, token)
    requires !(200 <= t.statusCode <= 299)
    ensures ValidateToken(policy, token, action, t)
            == ValidateTokenResponse(false, BadStatus(t.statusCode), t.statusCode, Some(t.body), None)
  {
  }

  /** On a 2xx status, an empty body or a body that parses to nothing fails with no parsed
      record attached. */
  lemma EmptyOrUnparsableBodyFails(policy: Policy, token: string, action: string, t: Transport)
    requires !BypassMatches(policy, token)
    requires 200 <= t.statusCode <= 299
    requires t.body == "" || t.parsed.None?
    ensures !ValidateToken(policy, token, action, t).success
    ensures ValidateToken(policy, token, action, t).response.None?
    ensures ValidateToken(policy, token, action, t).error
            == (if t.body == "" then EmptyBody(t.statusCode) else Unparsable(t.statusCode))
  {
  }

  /** A remote rejection reports exactly the comma-joined error codes, the empty string when
      the codes are null or empty, and attaches the parsed record. When the codes are present,
      non-empty and comma-free, splitting the error text at commas recovers them. */
  lemma RejectionReportsJoinedCodes(policy: Policy, token: string, action: string, t: Transport)
    requires !BypassMatches(policy, token)
    requires 200 <= t.statusCode <= 299 && t.body != ""
    requires t.parsed.Some? && !t.parsed.value.success
    ensures !ValidateToken(policy, token, action, t).success
    ensures ValidateToken(policy, token, action, t).response == t.parsed
    ensures ErrorText(ValidateToken(policy, token, action, t).error)
            == Some(Join(t.parsed.value.errorCodes.GetOr([])))
    ensures t.parsed.value.errorCodes.None? || t.parsed.value.errorCodes == Some([])
            ==> ErrorText(ValidateToken(policy, token, action, t).error) == Some("")
    ensures var codes := t.parsed.value.errorCodes.GetOr([]);
            |codes| > 0 && (forall i :: 0 <= i < |codes| ==> Comma !in codes[i])
            ==> Split(ValidateToken(policy, token, action, t).error.codes) == codes
  {
    var codes := t.parsed.value.errorCodes.GetOr([]);
    if |codes| > 0 && (forall i :: 0 <= i < |codes| ==> Comma !in codes[i]) {
      SplitJoin(codes);
    }
  }

  /** The answer passes the status, body, parse and remote checks. */
  predicate EarlierChecksPass(t: Transport)
  {
    200 <= t.statusCode <= 299 && t.body != "" && t.parsed.Some? && t.parsed.value.success
  }

  /** A score strictly below the minimum fails with that score; a score equal to the minimum
      passes the score check. */
  lemma ScoreThresholdIsInclusive(policy: Policy, token: string, action: string, t: Transport)
    requires !BypassMatches(policy, token)
    requires EarlierChecksPass(t)
    ensures t.parsed.value.score < policy.minScore
            <==> ValidateToken(policy, token, action, t).error == BadScore(t.parsed.value.score)
    ensures t.parsed.value.score == policy.minScore
            ==> !ValidateToken(policy, token, action, t).error.BadScore?
  {
  }

  /** The hostname is only compared when a host is configured: otherwise the reported hostname
      has no influence on the outcome's success or error. */
  lemma HostIgnoredWhenUnconfigured(policy: Policy, action: string, t: Transport, p: ReCaptchaResponse, hostname: string)
    requires policy.allowHost == ""
    requires t.parsed == Some(p)
    ensures var r1 := Evaluate(policy, action, t);
            var r2 := Evaluate(policy, action, t.(parsed := Some(p.(hostname := hostname))));
            r1.success == r2.success && r1.error == r2.error
  {
  }

  /** With a host configured, a parsed answer that passes the earlier checks fails on the host
      exactly when its hostname differs. */
  lemma HostComparedWhenConfigured(policy: Policy, token: string, action: string, t: Transport)
    requires !BypassMatches(policy, token)
    requires EarlierChecksPass(t) && t.parsed.value.score >= policy.minScore
    requires policy.allowHost != ""
    ensures ValidateToken(policy, token, action, t).error == BadHost(t.parsed.value.hostname)
            <==> t.parsed.value.hostname != policy.allowHost
  {
  }

  /** The action is only compared when the caller passes one: otherwise the reported action has
      no influence on the outcome's success or error. */
  lemma ActionIgnoredWhenNotRequested(policy: Policy, t: Transport, p: ReCaptchaResponse, reported: string)
    requires t.parsed == Some(p)
    ensures var r1 := Evaluate(policy, "", t);
            var r2 := Evaluate(policy, "", t.(parsed := Some(p.(action := reported))));
            r1.success == r2.success && r1.error == r2.error
  {
  }

  /** With an action passed in, an answer that passes every earlier check fails on the action
      exactly when the reported action differs, and the error names both. */
  lemma ActionComparedWhenRequested(policy: Policy, token: string, action: string, t: Transport)
    requires !BypassMatches(policy, token)
    requires EarlierChecksPass(t) && t.parsed.value.score >= policy.minScore
    requires policy.allowHost == "" || t.parsed.value.hostname == policy.allowHost
    requires action != ""
    ensures ValidateToken(policy, token, action, t).error == BadAction(t.parsed.value.action, action)
            <==> t.parsed.value.action != action
  {
  }

  /** A success that did not come from the bypass has an empty error and carries the parsed
      record, the status code and the raw body. */
  lemma RegularSuccessCarriesAnswer(policy: Policy, token: string, action: string, t: Transport)
    requires !BypassMatches(policy, token)
    requires ValidateToken(policy, token, action, t).success
    ensures ErrorText(ValidateToken(policy, token, action, t).error) == Some("")
    ensures ValidateToken(policy, token, action, t).response == t.parsed
    ensures t.parsed.Some?
    ensures ValidateToken(policy, token, action, t).statusCode == t.statusCode
    ensures ValidateToken(policy, token, action, t).httpResponseBody == Some(t.body)
  {
  }
}
