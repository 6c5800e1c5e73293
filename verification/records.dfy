/**
 The scraper's records: the bearer token, the client credentials it is
 obtained with, and a provider as the API describes it. They carry no
 behaviour except the `Authorization` header the token is sent as.
 */
module Records {
  import opened Wrappers

  /** The token the login endpoint hands out. */
  datatype Token = Token(access_token: string, token_type: string)

  /** The client credentials; `token` is attached after a successful login. */
  datatype Credentials = Credentials(client_id: string, client_secret: string, token: Option<Token>)

  /** A provider record: where its price page is and which element holds the price. */
  datatype Provider = Provider(id: int, name: string, url: string, html_element: string, last_accessed: string)

  /**
   `_set_token`: the token from the login response replaces whatever was
   attached, the client id and secret stay, and the session configured
   afterwards carries that token's header.
   */
  function SetToken(c: Credentials, t: Token): (r: Credentials)
    ensures r.token == Some(t)
    ensures r.client_id == c.client_id && r.client_secret == c.client_secret
    ensures ConfigureClient(r) == Some(AuthHeader(t))
  {
    c.(token := Some(t))
  }

  /** The `Authorization` header value: the token type, one space, the access token. */
  function AuthHeader(t: Token): (h: string)
    ensures |h| == |t.token_type| + 1 + |t.access_token|
    ensures h[..|t.token_type|] == t.token_type
    ensures h[|t.token_type|] == ' '
    ensures h[|t.token_type| + 1..] == t.access_token
  {
    t.token_type + " " + t.access_token
  }

  /**
   `_configure_client`: the header of the authenticated session, or
   `None` where reading the missing token raises.
   */
  function ConfigureClient(c: Credentials): (h: Option<string>)
    ensures h.Some? <==> c.token.Some?
    ensures h.Some? ==> h.value == AuthHeader(c.token.value)
  {
    match c.token
    case None => None
    case Some(t) => Some(AuthHeader(t))
  }

  /** Index of the first space in `s`, or `|s|` when there is none. */
  function FirstSpace(s: string): (k: nat)
    ensures k <= |s|
    ensures k < |s| ==> s[k] == ' '
    ensures ' ' !in s[..k]
  {
    if |s| == 0 || s[0] == ' ' then 0
    else
      var k := 1 + FirstSpace(s[1..]);
      assert s[..k] == [s[0]] + s[1..][..k - 1];
      k
  }

  /** How a receiver reads the header: the scheme up to the first space, then the credentials. */
  function ParseAuthHeader(h: string): Option<Token>
  {
    var k := FirstSpace(h);
    if k == |h| then None else Some(Token(h[k + 1..], h[..k]))
  }

  lemma {:induction false} FirstSpaceAfter(a: string, b: string)
    requires ' ' !in a
    ensures FirstSpace(a + " " + b) == |a|
  {
    if |a| == 0 {
      assert (a + " " + b)[0] == ' ';
    } else {
      assert (a + " " + b)[1..] == a[1..] + " " + b;
      assert a[0] in a;
      assert forall x :: x in a[1..] ==> x in a;
      FirstSpaceAfter(a[1..], b);
    }
  }

  /** A token whose type has no space is recovered from its header. */
  lemma AuthHeaderRoundTrip(t: Token)
    requires ' ' !in t.token_type
    ensures ParseAuthHeader(AuthHeader(t)) == Some(t)
  {
    FirstSpaceAfter(t.token_type, t.access_token);
  }
}
