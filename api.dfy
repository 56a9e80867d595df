/**
  What both scripts share: a CSV row, the outcome of one POST made through
  `requests`, the exceptions that decide control flow, the login step, the
  error handling of `add_policy`, and the shape of the policy-creation body.
 */
module Api {
  import opened Wrappers

  /** One CSV data row as `csv.DictReader` yields it: column name to cell text. */
  type Row = map<string, string>

  /** Python's `d.get(key, default)`. */
  function Get(d: map<string, string>, key: string, default: string): string
  {
    if key in d then d[key] else default
  }

  /** What one `requests.post(...)` followed by `raise_for_status()` and
      `response.json()` came to. The remote service is not modelled: the caller
      of the model supplies these outcomes. */
  datatype HttpOutcome =
      /** A `RequestException` was raised (HTTP error status, connection
          failure, body that is not JSON); `response` is the text of the
          response the exception carries, `None` when there was none. */
    | Failed(response: Option<string>)
      /** A 2xx response whose JSON body is an object; its fields are
          modelled as strings. */
    | Succeeded(body: map<string, string>)

  /** The exceptions that decide control flow in the two scripts. */
  datatype Exception = KeyError(key: string) | ValueError | AttributeError

  /** How a call of a Python function ended. */
  datatype Step<+T> = Returned(value: T) | Raised(exc: Exception)

  /** `get_jwt_token`: `None` on a request error; a `ValueError` (caught by
      nobody) when the login response has no non-empty `token`. */
  function GetJwtToken(login: HttpOutcome): (r: Step<Option<string>>)
    ensures r == Returned(None) <==> login.Failed?
    ensures r.Raised? <==> login.Succeeded? && Get(login.body, "token", "") == ""
    ensures r.Raised? ==> r.exc == ValueError
    ensures r.Returned? && r.value.Some? ==>
              login.Succeeded? && "token" in login.body && r.value.value == login.body["token"] && r.value.value != ""
  {
    match login
    case Failed(_) => Returned(None)
    case Succeeded(body) =>
      var token := Get(body, "token", "");
      if token == "" then Raised(ValueError) else Returned(Some(token))
  }

  /** The value Python's `if added_policy:` tests: a dict is true when it is not empty. */
  predicate Truthy(details: Option<map<string, string>>)
  {
    details.Some? && |details.value| > 0
  }

  /** The `rule` object of a policy-creation body; `savedSearch` is
      `rule.parameters.savedSearch`. */
  datatype Rule = Rule(name: string, criteria: string, savedSearch: bool, ruleType: string)

  /** The JSON body POSTed to the policy endpoint. */
  datatype PolicyBody = PolicyBody(
    name: string,
    description: string,
    severity: string,
    labels: seq<string>,
    policyType: string,
    cloudType: string,
    enabled: bool,
    recommendation: string,
    rule: Rule)

  /** The rule of a policy is named after the policy. */
  function RuleName(policyName: string): string
  {
    policyName + " Rule"
  }

  /** Two policies never get the same rule name. */
  lemma RuleNameInjective(a: string, b: string)
    requires RuleName(a) == RuleName(b)
    ensures a == b
  {
    assert a == RuleName(a)[..|a|];
    assert b == RuleName(b)[..|b|];
  }

  /** What `add_policy` does with the outcome of its POST, in both scripts:
      the created policy's details on success, `None` on an HTTP error whatever
      the response text says ("already exists" is only reported), and an
      `AttributeError` when the exception carries no response, because the
      "already exists" test reads `e.response.text` without checking for `None`. */
  function AddPolicyStep(o: HttpOutcome): (r: Step<Option<map<string, string>>>)
    ensures r.Raised? <==> o == Failed(None)
    ensures r.Raised? ==> r.exc == AttributeError
    ensures o.Failed? && o.response.Some? ==> r == Returned(None)
    ensures r.Returned? && r.value.Some? <==> o.Succeeded?
    ensures o.Succeeded? ==> r.value.value == o.body
  {
    match o
    case Failed(None) => Raised(AttributeError)
    case Failed(Some(_)) => Returned(None)
    case Succeeded(details) => Returned(Some(details))
  }
}
