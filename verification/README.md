# reCAPTCHA token validation, modelled in Dafny

This project models the token validator of the MyJetWallet Google reCAPTCHA client:
`ReCaptchaServer.ValidateTokenAsync` decides whether a client's reCAPTCHA token is accepted.
The validator holds a fixed policy: the secret key, the minimum score, an optional bypass
("allow always") code and an optional required host. That policy is the `Server.Policy`
datatype. The validator first checks the bypass code. If the bypass does not fire, it posts the
secret and the token to the verification endpoint. It then applies a fixed, short-circuiting
sequence of checks to the answer: 2xx status, non-empty body, successful parse, remote
`success`, minimum score, host, action.

The HTTP round trip and the JSON parse are inputs to the model. `Server.Begin` either decides
(bypass) or builds the request. `Server.Evaluate` interprets a `Transport`: the status code, the
body string and the parsed `ReCaptchaResponse`, or None when the parse yields null.
`Server.ValidateToken` composes the two. Error messages are the `Server.Error` variants, which
keep the data the source interpolates. `Server.ErrorText` gives the exact text where the source
fixes it: `"Internal allow"`, the comma-joined codes, and the empty string. The `Pipeline`
module is an independent description of the same checks, as an ordered list with one failure
condition each. `Strings` holds the comma join and its inverse.

Representation choices:
- A null string (policy code, host, token, action, hostname, an error code) is represented by
  `""`. This is exact for the decisions. Each such string is either tested with
  `string.IsNullOrEmpty`, or compared for equality only after the other side is known to be
  non-empty. `string.Join` renders a null element as empty.
- The remote error-code list keeps null apart from empty (`Option<seq<string>>`).
- Status codes are unbounded integers; `IsSuccessStatusCode` is 200..299 inclusive, the 2xx
  class of section 15.3 of RFC 9110.

## Behaviour worth noting

- The validator sends no client IP field. The request holds only `secret` and `response`.
- The validator catches no exceptions, from the HTTP call or from the JSON parse. A transport
  fault or a malformed body is therefore not turned into a failed outcome. The model covers
  only answers that arrive and parse, or parse to null.
- A failed outcome has an empty error text whenever the remote rejects the token with codes
  that join to "". That covers null codes, an empty list, and a single empty or null code.
- A bypass success has a non-empty error text, `"Internal allow"`. A rejection whose codes join
  to `"Internal allow"` has the same text without success. The error text alone does not
  identify the outcome.

## Model

| member | source | states |
|---|---|---|
| Server.Begin | src/MyJetWallet.GoogleRecaptcha/ReCaptchaServer.cs:23-39 | the validator decides before any I/O exactly when a non-empty bypass code equals the token, with outcome success, "Internal allow", OK and nothing attached; otherwise it builds a POST to the fixed endpoint whose form has the secret and the token and no client IP |
| Server.Evaluate | src/MyJetWallet.GoogleRecaptcha/ReCaptchaServer.cs:47-140 | every evaluated outcome carries the transport's status code and raw body; it succeeds exactly when its error is the NoError variant; the parsed record is attached exactly when the status is 2xx, the body is non-empty and the parse produced a record, and it is then that record |
| Server.ValidateToken | src/MyJetWallet.GoogleRecaptcha/ReCaptchaServer.cs:21-141 | the InternalAllow error variant appears exactly when the bypass fires; a success always has the error text "Internal allow" or "" |
| Server.ErrorText | src/MyJetWallet.GoogleRecaptcha/ReCaptchaServer.cs:25-140 | exact error text is known for the bypass marker, the remote rejection and success, and for no other error; an empty text comes only from success or a rejection whose codes join to "", and the text "Internal allow" only from the bypass or a rejection whose codes join to that text |
| Server.FormValue | src/MyJetWallet.GoogleRecaptcha/ReCaptchaServer.cs:33-37 | a form field lookup finds nothing exactly when no field has the name, and otherwise returns the value of a field of that name |
| Strings.Join | src/MyJetWallet.GoogleRecaptcha/ReCaptchaServer.cs:85 | joining no codes gives ""; otherwise the text has the parts' total length plus one per gap, and exactly one more comma per gap than the parts contain |
| Strings.Split | src/MyJetWallet.GoogleRecaptcha/ReCaptchaServer.cs:85 | the inverse reading of the joined error text: at least one piece, one more piece than there are commas, no piece contains a comma |
| Strings.OccurrencesAppend | src/MyJetWallet.GoogleRecaptcha/ReCaptchaServer.cs:85 | comma counts add up over concatenation, which the join's comma count rests on |
| Strings.JoinSplit | src/MyJetWallet.GoogleRecaptcha/ReCaptchaServer.cs:85 | joining the comma-split pieces of any text gives back that text |
| Strings.SplitCommaFreePrefix | src/MyJetWallet.GoogleRecaptcha/ReCaptchaServer.cs:85 | splitting a comma-free prefix followed by any text glues the prefix onto the first piece |
| Strings.SplitJoin | src/MyJetWallet.GoogleRecaptcha/ReCaptchaServer.cs:85 | a non-empty list of comma-free codes is recovered by splitting its join |
| Strings.JoinIsEmptyExactly | src/MyJetWallet.GoogleRecaptcha/ReCaptchaServer.cs:85 | the joined text is empty exactly for no codes or a single empty code, so it cannot tell those apart |
| Pipeline.FirstFailing | src/MyJetWallet.GoogleRecaptcha/ReCaptchaServer.cs:47-131 | the reference reading of a short-circuiting sequence of checks: None exactly when no check fails, otherwise a failing check before which none fails |
| Pipeline.IndexOf | src/MyJetWallet.GoogleRecaptcha/ReCaptchaServer.cs:47-131 | every check has a position in the source order of the checks |
| Pipeline.CheckOf | src/MyJetWallet.GoogleRecaptcha/ReCaptchaServer.cs:47-131 | every error except the bypass marker and the empty success error names the check that produced it |
| Pipeline.EvaluateFollowsOrder | src/MyJetWallet.GoogleRecaptcha/ReCaptchaServer.cs:47-140 | the check Evaluate reports is the first rejecting check in source order, and Evaluate succeeds exactly when no check rejects the answer |
| Pipeline.SuccessIffBypassOrAllChecksPass | src/MyJetWallet.GoogleRecaptcha/ReCaptchaServer.cs:23-140 | success holds exactly when the bypass fires or every check passes |
| Pipeline.EarliestFailureWins | src/MyJetWallet.GoogleRecaptcha/ReCaptchaServer.cs:47-131 | when a check fails, the outcome fails and never reports a later check |
| Properties.BypassAllowsWithoutRequest | src/MyJetWallet.GoogleRecaptcha/ReCaptchaServer.cs:23-31 | a matching non-empty bypass code gives success, "Internal allow", OK, with no body and no record; no request is built and the transport cannot change the outcome |
| Properties.EmptyBypassCodeNeverBypasses | src/MyJetWallet.GoogleRecaptcha/ReCaptchaServer.cs:23 | an empty bypass code never bypasses, even for an empty token; the request is sent and the answer evaluated |
| Properties.BadStatusFails | src/MyJetWallet.GoogleRecaptcha/ReCaptchaServer.cs:47-56 | a status outside 2xx fails with that status and the raw body and no parsed record |
| Properties.EmptyOrUnparsableBodyFails | src/MyJetWallet.GoogleRecaptcha/ReCaptchaServer.cs:58-80 | on 2xx, an empty body fails as EmptyBody, and a non-empty body whose parse yields null fails as Unparsable; neither has a record attached |
| Properties.RejectionReportsJoinedCodes | src/MyJetWallet.GoogleRecaptcha/ReCaptchaServer.cs:82-95 | a remote rejection fails with exactly the comma-joined codes as error text ("" for null or empty codes), with the record attached; comma-free codes are recoverable from the text |
| Properties.ScoreThresholdIsInclusive | src/MyJetWallet.GoogleRecaptcha/ReCaptchaServer.cs:97-107 | past the earlier checks, the outcome is a bad-score failure exactly when the score is strictly below the minimum; a score equal to the minimum passes |
| Properties.HostIgnoredWhenUnconfigured | src/MyJetWallet.GoogleRecaptcha/ReCaptchaServer.cs:109 | with no host configured, the reported hostname does not change the outcome's success or error |
| Properties.HostComparedWhenConfigured | src/MyJetWallet.GoogleRecaptcha/ReCaptchaServer.cs:109-119 | with a host configured and the earlier checks passed, the outcome is a bad-host failure exactly when the hostname differs |
| Properties.ActionIgnoredWhenNotRequested | src/MyJetWallet.GoogleRecaptcha/ReCaptchaServer.cs:121 | when the caller passes no action, the reported action does not change the outcome's success or error |
| Properties.ActionComparedWhenRequested | src/MyJetWallet.GoogleRecaptcha/ReCaptchaServer.cs:121-131 | with an action passed and the earlier checks passed, the outcome is a bad-action failure naming both actions exactly when they differ |
| Properties.RegularSuccessCarriesAnswer | src/MyJetWallet.GoogleRecaptcha/ReCaptchaServer.cs:133-140 | a success without the bypass has error "", and carries the parsed record, the status code and the raw body |

## Left out

- The HTTP round trip (building `FormUrlEncodedContent`, `HttpClient.PostAsync`, reading the body, async/await): it is network I/O, so its result is the `Transport` input. Exceptions thrown by the HTTP call are not caught by the validator and are not modelled as outcomes.
- JSON deserialisation with Newtonsoft.Json: it is a foreign library, so its result is the `parsed` field of `Transport`, and nothing relates it to the body text. The parse throws on malformed JSON or a body of the wrong shape, such as HTML or a JSON array. The validator does not catch that exception, so the model has no outcome for it. `Unparsable` stands only for a parse that yields null.
- The `float` score: it is a `real`, so float rounding is not modelled, and neither is the NaN case. A NaN score is not below any minimum, so it would pass the score check.
- Server.ErrorText: the text of the messages that interpolate a .NET rendering is not modelled. These are the status-code enum name and the float score. The `Error` variants keep the interpolated values instead.
- The `challenge_ts` timestamp of the parsed record: it takes part in no decision.
- `Dispose`: it does nothing.
- The console demo program: it is not part of the validator, and it calls a two-argument constructor that the validator class does not declare.
