/**
 * The `ResponseAssertions` trait as the session sees it: each assertion asks
 * the client for its last response (or, for cookies, its last request) and
 * raises when there is none yet, before the first request.
 */
module ResponseAssertions {
  import opened Outcome
  import Responses
  import Crawler

  /** `isStatusCode($code)`: `getResponse()` is null until a response has arrived. */
  function IsStatusCode(s: Crawler.Session, code: int): (r: Result<bool>)
    ensures r.Err? <==> s.response.None?
    ensures r.Err? ==> r.error == NoResponse
    ensures r.Ok? ==> (r.value <==> Responses.IsStatusCode(s.response.value, code))
  {
    match s.response
    case None => Err(NoResponse)
    case Some(resp) => Ok(Responses.IsStatusCode(resp, code))
  }

  /** `isOk()`. */
  function IsOk(s: Crawler.Session): (r: Result<bool>)
    ensures r == IsStatusCode(s, 200)
  {
    match s.response
    case None => Err(NoResponse)
    case Some(resp) => Ok(Responses.IsOk(resp))
  }

  /** `hasHeader($name, $value)`: `getInternalResponse()` is null until a response has arrived. */
  function HasHeader(s: Crawler.Session, name: string, value: Option<string>): (r: Result<bool>)
    ensures r.Err? <==> s.response.None?
    ensures r.Err? ==> r.error == NoResponse
    ensures r.Ok? ==> (r.value <==> Responses.HasHeader(s.response.value, name, value))
  {
    match s.response
    case None => Err(NoResponse)
    case Some(resp) => Ok(Responses.HasHeader(resp, name, value))
  }

  /**
   * `hasCookie($name, $value)`: `getRequest()` is null until a request has
   * been sent. After a request that got no response the cookie jar holds
   * nothing the model knows of.
   */
  function HasCookie(s: Crawler.Session, name: string, value: Option<string>): (r: Result<bool>)
    ensures r.Err? <==> s.sent == []
    ensures r.Err? ==> r.error == NoResponse
    ensures r.Ok? && s.response.Some? ==> (r.value <==> Responses.HasCookie(s.response.value, name, value))
    ensures r.Ok? && s.response.None? ==> !r.value
  {
    if s.sent == [] then Err(NoResponse)
    else
      match s.response
      case None => Ok(false)
      case Some(resp) => Ok(Responses.HasCookie(resp, name, value))
  }

  /** A newly constructed crawler has nothing to assert on: every response assertion raises. */
  lemma NothingBeforeFirstRequest(code: int, name: string, value: Option<string>)
    ensures IsStatusCode(Crawler.Start, code) == Err(NoResponse)
    ensures IsOk(Crawler.Start) == Err(NoResponse)
    ensures HasHeader(Crawler.Start, name, value) == Err(NoResponse)
    ensures HasCookie(Crawler.Start, name, value) == Err(NoResponse)
  {
  }

  /** After a request that got a response, the assertions answer on that response. */
  lemma AnswersFollowLastResponse(env: Crawler.Env, s: Crawler.Session, req: Crawler.Request, code: int, name: string, value: Option<string>)
    requires env.fetch(req).Some?
    ensures var t := Crawler.MakeRequest(env, s, req).session;
      var resp := env.fetch(req).value.response;
      IsStatusCode(t, code) == Ok(resp.status == code)
      && HasHeader(t, name, value) == Ok(Responses.HasHeader(resp, name, value))
      && HasCookie(t, name, value) == Ok(Responses.HasCookie(resp, name, value))
  {
  }

  /**
   * A request whose transport fails leaves the last response in place: status
   * and header assertions answer as before it.
   */
  lemma FailedRequestKeepsResponse(env: Crawler.Env, s: Crawler.Session, req: Crawler.Request, code: int, name: string, value: Option<string>)
    requires env.fetch(req).None?
    ensures var t := Crawler.MakeRequest(env, s, req).session;
      IsStatusCode(t, code) == IsStatusCode(s, code) && HasHeader(t, name, value) == HasHeader(s, name, value)
  {
  }
}
