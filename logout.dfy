/**
 * Logging out of the portal (api/src/logout.rs): a POST to `<base>/loginOut`
 * whose JSON answer is accepted exactly when its `result` member is the integer 1.
 * The request itself is a parameter: the transport outcome of the POST.
 */
module Logout {
  import opened Wrappers
  import opened Json

  datatype LogoutError = JsonError(response: Value) | Request(reason: string)

  /** `parse_result`: success exactly when `result` is the integer 1; otherwise the response itself is the error. */
  function ParseResult(response: Value): (r: Result<(), LogoutError>)
    ensures r.Ok? <==> (Get(response, "result").Some? && AsI64(Get(response, "result").value) == Some(1))
    ensures r.Err? ==> r.error == JsonError(response)
  {
    if GetI64(response, "result") == Some(1) then Ok(()) else Err(JsonError(response))
  }

  /** The logout endpoint below a base URL. */
  function LogoutUrl(baseUrl: string): (r: string)
    ensures |r| == |baseUrl| + 9
    ensures r[..|baseUrl|] == baseUrl && r[|baseUrl|..] == "/loginOut"
  {
    baseUrl + "/loginOut"
  }

  /**
   * `logout` and `logout_async`: both post to LogoutUrl and classify with
   * ParseResult, so one function stands for the two.  `post` is the network.
   */
  function Logout(baseUrl: string, post: string -> Exchange): (r: Result<(), LogoutError>)
    ensures post(LogoutUrl(baseUrl)).RequestFailed? ==> r == Err(Request(post(LogoutUrl(baseUrl)).reason))
    ensures r.Ok? <==> post(LogoutUrl(baseUrl)).Received? && ParseResult(post(LogoutUrl(baseUrl)).body).Ok?
    ensures r.Err? && r.error.JsonError? ==> post(LogoutUrl(baseUrl)) == Received(r.error.response)
    ensures post(LogoutUrl(baseUrl)).Received? ==> r == ParseResult(post(LogoutUrl(baseUrl)).body)
  {
    match post(LogoutUrl(baseUrl))
    case RequestFailed(e) => Err(Request(e))
    case Received(v) => ParseResult(v)
  }

  /** Only the integer 1 logs out: the string "1", the float 1.0, 0, a missing member and a non-object are all errors carrying the response. */
  lemma ResultMustBeIntegerOne(v: Value)
    requires v == Single("result", Str("1")) || v == Single("result", Num(Float(1.0)))
          || v == Single("result", Int(0)) || v == Single("results", Int(1)) || v == Array([Int(1)])
    ensures ParseResult(v) == Err(JsonError(v))
  {
  }

  lemma IntegerOneLogsOut(extra: map<string, Value>)
    ensures ParseResult(Object(extra["result" := Int(1)])).Ok?
  {
  }
}
