/** HTTP Basic credentials (section 2 of RFC 2617) as the HTTP backend reads
    them from the `Authorization` header: the scheme `Basic `, then the
    Base64 of `user:password`, split at the first colon. */
module BasicAuth {
  import opened Strings
  import Base64

  const Scheme := "Basic "

  /** Go's `(username, password string, ok bool)`. */
  datatype Credentials = Credentials(username: string, password: string, ok: bool)

  const NoCredentials := Credentials("", "", false)

  /** `parseBasicAuth`: the credentials in a header value, or two empty
      strings and `false` when the scheme is not `Basic `, the rest is not
      Base64 or the decoded text has no colon. */
  function ParseBasicAuth(auth: string): (r: Credentials)
    ensures !r.ok ==> r == NoCredentials
    ensures r.ok <==>
      (&& HasPrefix(auth, Scheme)
       && Base64.Decode(auth[|Scheme|..]).Some?
       && ':' in Base64.Decode(auth[|Scheme|..]).value)
    ensures r.ok ==>
      && Base64.Decode(auth[|Scheme|..]).value == r.username + ":" + r.password
      && ':' !in r.username
  {
    if !HasPrefix(auth, Scheme) then NoCredentials
    else
      match Base64.Decode(auth[|Scheme|..])
      case None => NoCredentials
      case Some(cs) =>
        var s := IndexByte(cs, ':');
        if s < 0 then NoCredentials
        else
          assert cs == cs[..s] + ":" + cs[s + 1..];
          Credentials(cs[..s], cs[s + 1..], true)
  }

  /** `BasicAuth`: `authorization` is the request's `Authorization` header,
      empty when there is none. The early return for an empty header changes
      nothing: it is exactly `parseBasicAuth`. */
  function RequestBasicAuth(authorization: string): (r: Credentials)
    ensures r == ParseBasicAuth(authorization)
    ensures authorization == "" ==> !r.ok
  {
    if authorization == "" then NoCredentials
    else ParseBasicAuth(authorization)
  }

  /** The header a client sends for a user name without a colon and any
      password. */
  function Header(username: string, password: string): string
    requires Base64.IsByteString(username + ":" + password)
  {
    Scheme + Base64.Encode(username + ":" + password)
  }

  /** Credentials survive the trip through the header: a user name without a
      colon and any password (both byte strings) come back unchanged. */
  lemma ParseHeader(username: string, password: string)
    requires Base64.IsByteString(username + ":" + password)
    requires ':' !in username
    ensures ParseBasicAuth(Header(username, password)) == Credentials(username, password, true)
  {
    var text := username + ":" + password;
    var h := Header(username, password);
    assert h[|Scheme|..] == Base64.Encode(text);
    Base64.DecodeEncode(text);
    FirstColon(username, password);
  }

  /** The first colon of `user:password` is the one after the user name. */
  lemma FirstColon(username: string, password: string)
    requires ':' !in username
    ensures IndexByte(username + ":" + password, ':') == |username|
  {
    var text := username + ":" + password;
    assert text[|username|] == ':';
    assert text[..|username|] == username;
  }

  /** Base64 text without a colon in it yields no credentials. */
  lemma NoColonRejected(text: string)
    requires Base64.IsByteString(text) && ':' !in text
    ensures ParseBasicAuth(Scheme + Base64.Encode(text)) == NoCredentials
  {
    assert (Scheme + Base64.Encode(text))[|Scheme|..] == Base64.Encode(text);
    Base64.DecodeEncode(text);
  }

  /** A header that does not start with `Basic ` yields no credentials,
      whatever follows. */
  lemma OtherSchemeRejected(auth: string)
    requires !HasPrefix(auth, Scheme)
    ensures ParseBasicAuth(auth) == NoCredentials
  {
  }
}
