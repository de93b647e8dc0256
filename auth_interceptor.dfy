/** `AuthInterceptor`: the rule that decides which request goes on down the
    HTTP chain. A request is its list of header fields, in order. */
module Auth {
  import opened Pojo

  datatype Header = Header(name: string, value: string)

  /** The token every interceptor starts with. */
  const DefaultToken := "3205.team_token"

  /** The field whose presence opts a request out of authentication. */
  const OptOutName := "No-Authentication"

  const AuthorizationName := "Authorization"

  function Fold(c: char): char {
    if 'A' <= c <= 'Z' then (c as int + 32) as char else c
  }

  /** Header names compare without regard to letter case. */
  predicate SameName(a: string, b: string) {
    |a| == |b| && forall i :: 0 <= i < |a| ==> Fold(a[i]) == Fold(b[i])
  }

  /** `Request.header(name)`: the value of the last field called `name`, or
      none when no field is. */
  function HeaderValue(headers: seq<Header>, name: string): (r: Option<string>)
    ensures r.None? <==> forall i :: 0 <= i < |headers| ==> !SameName(headers[i].name, name)
    ensures r.Some? ==> exists i :: 0 <= i < |headers| && SameName(headers[i].name, name) && headers[i].value == r.value
                                    && forall j :: i < j < |headers| ==> !SameName(headers[j].name, name)
    decreases |headers|
  {
    if headers == [] then None
    else
      var last := headers[|headers| - 1];
      if SameName(last.name, name) then Some(last.value)
      else
        var r := HeaderValue(headers[..|headers| - 1], name);
        assert forall i :: 0 <= i < |headers| - 1 ==> headers[..|headers| - 1][i] == headers[i];
        r
  }

  /** The request `intercept` passes to `chain.proceed`: an
      `Authorization: Bearer <token>` field is added unless the request carries
      a `No-Authentication` field or the token is empty. */
  function Forwarded(token: string, request: seq<Header>): (forwarded: seq<Header>)
    ensures |forwarded| >= |request| && forwarded[..|request|] == request
  {
    if HeaderValue(request, OptOutName).None? && |token| > 0 then
      request + [Header(AuthorizationName, "Bearer " + token)]
    else request
  }

  /** The fields after appending one: a lookup of its name finds it, any
      other lookup finds what it found before. */
  lemma HeaderValueAppend(headers: seq<Header>, h: Header, name: string)
    ensures SameName(h.name, name) ==> HeaderValue(headers + [h], name) == Some(h.value)
    ensures !SameName(h.name, name) ==> HeaderValue(headers + [h], name) == HeaderValue(headers, name)
  {
    assert (headers + [h])[..|headers|] == headers;
  }

  /** Without an opt-out and with a token, exactly one field is added, at the
      end, it is the one `Authorization` lookups find, and every other lookup
      is unaffected. */
  lemma InterceptAuthorizes(token: string, request: seq<Header>, name: string)
    requires HeaderValue(request, OptOutName).None? && |token| > 0
    ensures var f := Forwarded(token, request);
            && |f| == |request| + 1
            && f[|request|] == Header(AuthorizationName, "Bearer " + token)
            && HeaderValue(f, AuthorizationName) == Some("Bearer " + token)
            && (!SameName(name, AuthorizationName) ==> HeaderValue(f, name) == HeaderValue(request, name))
  {
    var h := Header(AuthorizationName, "Bearer " + token);
    HeaderValueAppend(request, h, AuthorizationName);
    HeaderValueAppend(request, h, name);
    if SameName(h.name, name) {
      assert forall i :: 0 <= i < |name| ==> Fold(name[i]) == Fold(AuthorizationName[i]);
    }
  }

  /** A request that opts out, or any request when the token is empty, goes on
      unchanged. */
  lemma InterceptPassesThrough(token: string, request: seq<Header>)
    ensures Forwarded(token, request) == request <==> (HeaderValue(request, OptOutName).Some? || |token| == 0)
  {
  }

  /** The interceptor installed in the HTTP client. Its `token` is a public
      field that starts as `DefaultToken`. */
  class AuthInterceptor {
    var token: string

    constructor()
      ensures token == DefaultToken
    {
      token := DefaultToken;
    }

    /** `intercept`: the chain proceeds, once, with the request the current
        token makes of `request`; the interceptor itself is unchanged. */
    method Intercept(request: seq<Header>) returns (forwarded: seq<Header>)
      ensures forwarded == Forwarded(token, request)
      ensures HeaderValue(request, OptOutName).None? && |token| > 0 ==>
                HeaderValue(forwarded, AuthorizationName) == Some("Bearer " + token)
      ensures HeaderValue(request, OptOutName).Some? || |token| == 0 ==> forwarded == request
    {
      forwarded := request;
      if HeaderValue(request, OptOutName).None? {
        if |token| > 0 {
          forwarded := request + [Header(AuthorizationName, "Bearer " + token)];
          InterceptAuthorizes(token, request, AuthorizationName);
        }
      }
    }
  }
}
