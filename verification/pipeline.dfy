/** An independent, declarative description of the validation: the checks as a list in
    source order, each with its own failure condition, and the lemmas that tie `Evaluate` and
    `ValidateToken` to it. */
module Pipeline {
  import opened Wrappers
  import opened Responses
  import opened Server

  /** The checks applied to the endpoint's answer. */
  datatype Check = StatusCheck | BodyCheck | ParseCheck | RemoteCheck | ScoreCheck | HostCheck | ActionCheck

  /** The order in which the validator applies the checks. */
  const Order: seq<Check> := [StatusCheck, BodyCheck, ParseCheck, RemoteCheck, ScoreCheck, HostCheck, ActionCheck]

  /** Whether check `c` rejects the answer `t`. A check on the parsed record cannot reject when
      nothing was parsed (the parse check has already failed in that case). */
  predicate Fails(c: Check, policy: Policy, action: string, t: Transport)
  {
    match c
    case StatusCheck => !IsSuccessStatusCode(t.statusCode)
    case BodyCheck => t.body == ""
    case ParseCheck => t.parsed.None?
    case RemoteCheck => t.parsed.Some? && !t.parsed.value.success
    case ScoreCheck => t.parsed.Some? && t.parsed.value.score < policy.minScore
    case HostCheck => t.parsed.Some? && policy.allowHost != "" && t.parsed.value.hostname != policy.allowHost
    case ActionCheck => t.parsed.Some? && action != "" && t.parsed.value.action != action
  }

  /** The first check of `checks` that rejects the answer, if any. */
  function FirstFailing(checks: seq<Check>, policy: Policy, action: string, t: Transport): (r: Option<Check>)
    ensures r.None? <==> forall i :: 0 <= i < |checks| ==> !Fails(checks[i], policy, action, t)
    ensures r.Some? ==> exists k :: 0 <= k < |checks| && checks[k] == r.value
                                    && Fails(checks[k], policy, action, t)
                                    && forall j :: 0 <= j < k ==> !Fails(checks[j], policy, action, t)
  {
    if |checks| == 0 then None
    else if Fails(checks[0], policy, action, t) then Some(checks[0])
    else
      var r := FirstFailing(checks[1..], policy, action, t);
      assert forall i :: 1 <= i < |checks| ==> checks[i] == checks[1..][i - 1];
      if r.Some? then
        var k :| 0 <= k < |checks[1..]| && checks[1..][k] == r.value
                 && Fails(checks[1..][k], policy, action, t)
                 && forall j :: 0 <= j < k ==> !Fails(checks[1..][j], policy, action, t);
        assert checks[k + 1] == r.value;
        r
      else r
  }

  /** The position of a check in `Order`. */
  function IndexOf(c: Check): (i: nat)
    ensures i < |Order| && Order[i] == c
  {
    match c
    case StatusCheck => 0
    case BodyCheck => 1
    case ParseCheck => 2
    case RemoteCheck => 3
    case ScoreCheck => 4
    case HostCheck => 5
    case ActionCheck => 6
  }

  /** The check an error reports, if it reports one. */
  function CheckOf(e: Error): (r: Option<Check>)
    ensures r.None? <==> e.InternalAllow? || e.NoError?
  {
    match e
    case InternalAllow => None
    case BadStatus(_) => Some(StatusCheck)
    case EmptyBody(_) => Some(BodyCheck)
    case Unparsable(_) => Some(ParseCheck)
    case Rejected(_) => Some(RemoteCheck)
    case BadScore(_) => Some(ScoreCheck)
    case BadHost(_) => Some(HostCheck)
    case BadAction(_, _) => Some(ActionCheck)
    case NoError => None
  }

  /** When the checks are applied in order, the first one to reject an answer is the one
      `Evaluate` reports, and `Evaluate` succeeds exactly when none rejects it. */
  lemma EvaluateFollowsOrder(policy: Policy, action: string, t: Transport)
    ensures CheckOf(Evaluate(policy, action, t).error) == FirstFailing(Order, policy, action, t)
    ensures Evaluate(policy, action, t).success <==> forall c :: !Fails(c, policy, action, t)
  {
    var r := Evaluate(policy, action, t);
    var f := FirstFailing(Order, policy, action, t);
    var c := CheckOf(r.error);
    assert Order[0] == StatusCheck && Order[1] == BodyCheck && Order[2] == ParseCheck
        && Order[3] == RemoteCheck && Order[4] == ScoreCheck && Order[5] == HostCheck
        && Order[6] == ActionCheck;
    if c.Some? {
      assert Fails(c.value, policy, action, t);
      assert f.Some?;
      var k :| 0 <= k < |Order| && Order[k] == f.value && Fails(Order[k], policy, action, t)
                && forall j :: 0 <= j < k ==> !Fails(Order[j], policy, action, t);
    } else {
      forall i | 0 <= i < |Order|
        ensures !Fails(Order[i], policy, action, t)
      {
      }
    }
    if !r.success {
      assert Fails(c.value, policy, action, t);
    } else {
      forall ch: Check
        ensures !Fails(ch, policy, action, t)
      {
        assert ch == Order[IndexOf(ch)];
      }
    }
  }

  /** The validator succeeds exactly when the bypass fires or no check rejects the answer. */
  lemma SuccessIffBypassOrAllChecksPass(policy: Policy, token: string, action: string, t: Transport)
    ensures ValidateToken(policy, token, action, t).success
            <==> BypassMatches(policy, token) || forall c :: !Fails(c, policy, action, t)
  {
    EvaluateFollowsOrder(policy, action, t);
  }

  /** When several checks would reject the answer, the outcome reports the earliest of them. */
  lemma EarliestFailureWins(policy: Policy, token: string, action: string, t: Transport, i: nat, j: nat)
    requires !BypassMatches(policy, token)
    requires i < j < |Order|
    requires Fails(Order[i], policy, action, t)
    ensures !ValidateToken(policy, token, action, t).success
    ensures CheckOf(ValidateToken(policy, token, action, t).error) != Some(Order[j])
  {
    EvaluateFollowsOrder(policy, action, t);
    var f := FirstFailing(Order, policy, action, t);
    var k :| 0 <= k < |Order| && Order[k] == f.value && Fails(Order[k], policy, action, t)
              && forall m :: 0 <= m < k ==> !Fails(Order[m], policy, action, t);
    assert k <= i;
    assert Order[k] != Order[j] by {
      assert Order == [StatusCheck, BodyCheck, ParseCheck, RemoteCheck, ScoreCheck, HostCheck, ActionCheck];
    }
  }
}
