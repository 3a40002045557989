/** The record the verification endpoint's JSON body is parsed into. */
module Responses {
  import opened Wrappers

  /** One parsed verification result. The score is a `real` (the source's `float` rounding is
      not modelled); a null `action`/`hostname` is represented by "" (see README); the error
      codes keep their null-versus-empty distinction. The issue timestamp takes part in no
      decision and is not modelled. */
  datatype ReCaptchaResponse = ReCaptchaResponse(
    success: bool,
    score: real,
    action: string,
    hostname: string,
    errorCodes: Option<seq<string>>
  )
}
