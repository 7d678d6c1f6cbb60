/**
 * The response predicates of `ResponseAssertions`: `isOk`, `isStatusCode`,
 * `hasHeader` and `hasCookie`, over a record of the last response.
 */
module Responses {
  import opened Outcome
  import opened Strings

  /**
   * The last response: its status, the first value of each header (what
   * `getHeader($name, true)` returns), the cookie values the cookie jar holds
   * for the last request's URI, and the body.
   */
  datatype Response = Response(status: int, headers: map<string, string>, cookies: map<string, string>, content: string)

  /** `isStatusCode($code)`: strict integer equality with the status. */
  predicate IsStatusCode(r: Response, code: int)
  {
    r.status == code
  }

  /** `isOk()`. */
  predicate IsOk(r: Response)
  {
    IsStatusCode(r, 200)
  }

  /** A response has exactly one status code: no two different codes both hold. */
  lemma StatusCodeDetermined(r: Response, a: int, b: int)
    ensures IsStatusCode(r, a) && IsStatusCode(r, b) ==> a == b
    ensures IsStatusCode(r, r.status)
  {
  }

  lemma IsOkMeans200(r: Response)
    ensures IsOk(r) <==> r.status == 200
  {
  }

  /**
   * `hasHeader($name, $value)`: the header's first value must be present and
   * PHP-truthy; then a null value accepts it, any other value must equal it.
   */
  predicate HasHeader(r: Response, name: string, value: Option<string>)
  {
    if name in r.headers && Truthy(r.headers[name]) then
      match value
      case None => true
      case Some(v) => r.headers[name] == v
    else false
  }

  /** A header whose first value is missing, empty or "0" is never seen, whatever value is asked for. */
  lemma FalsyHeaderUnseen(r: Response, name: string, value: Option<string>)
    requires name !in r.headers || r.headers[name] == "" || r.headers[name] == "0"
    ensures !HasHeader(r, name, value)
  {
  }

  /** Asking for "0" or "" is never satisfied, even by a header that has that value. */
  lemma HeaderZeroNeverMatches(r: Response, name: string)
    ensures !HasHeader(r, name, Some("0"))
    ensures !HasHeader(r, name, Some(""))
  {
  }

  /** A header is seen exactly when it is seen with some value, and that value is its own. */
  lemma HeaderPresence(r: Response, name: string)
    ensures HasHeader(r, name, None) <==> exists v :: HasHeader(r, name, Some(v))
    ensures forall v :: HasHeader(r, name, Some(v)) ==> v == r.headers[name]
  {
    if HasHeader(r, name, None) {
      assert HasHeader(r, name, Some(r.headers[name]));
    }
  }

  /**
   * `hasCookie($name, $value)`: `isset` accepts any cookie that is present,
   * then a null value accepts it, any other value must equal it.
   */
  predicate HasCookie(r: Response, name: string, value: Option<string>)
  {
    if name in r.cookies then
      match value
      case None => true
      case Some(v) => r.cookies[name] == v
    else false
  }

  /** Unlike a header, a cookie with an empty or "0" value is seen. */
  lemma EmptyCookieSeen(r: Response, name: string)
    requires name in r.cookies && !Truthy(r.cookies[name])
    ensures HasCookie(r, name, None)
    ensures HasCookie(r, name, Some(r.cookies[name]))
    ensures !HasHeader(r.(headers := r.cookies), name, None)
  {
  }

  lemma CookiePresence(r: Response, name: string)
    ensures HasCookie(r, name, None) <==> name in r.cookies
    ensures HasCookie(r, name, None) <==> exists v :: HasCookie(r, name, Some(v))
    ensures forall v :: HasCookie(r, name, Some(v)) ==> v == r.cookies[name]
  {
    if HasCookie(r, name, None) {
      assert HasCookie(r, name, Some(r.cookies[name]));
    }
  }

  /** The header cases of the response tests: an `E-Tag` header and no `Cache-Control`. */
  lemma ETagCases(r: Response, etag: string, cacheControl: string, other: string)
    requires r.headers == map[etag := "an-etag-hash"]
    requires cacheControl != etag && other != "an-etag-hash"
    ensures HasHeader(r, etag, None)
    ensures HasHeader(r, etag, Some("an-etag-hash"))
    ensures !HasHeader(r, etag, Some(other))
    ensures !HasHeader(r, cacheControl, None)
    ensures !HasHeader(r, cacheControl, Some("an-etag-hash"))
  {
  }

  /** The cookie cases of the response tests: cookie `foo` holds `bar`, there is no `baz`. */
  lemma FooBarCookieCases(r: Response, foo: string, baz: string, qux: string)
    requires r.cookies == map[foo := "bar"]
    requires baz != foo && qux != "bar"
    ensures HasCookie(r, foo, None)
    ensures HasCookie(r, foo, Some("bar"))
    ensures !HasCookie(r, foo, Some(qux))
    ensures !HasCookie(r, baz, None)
    ensures !HasCookie(r, baz, Some("bar"))
  {
  }
}
