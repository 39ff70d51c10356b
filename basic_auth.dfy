/**
 * `BasicAuth.extract_base64_authorization_header`: the credentials part of an
 * HTTP Basic `Authorization` header, after the scheme marker of section 2 of
 * RFC 7617 written exactly as "Basic " (case-sensitive, one space, no trimming).
 */
module BasicAuth {
  import opened Wrappers

  /** The dynamically typed argument: `None`, a `str`, or a value of some other type. */
  datatype Header = NoHeader | Text(s: string) | NotText

  const Scheme: string := "Basic "

  function ExtractBase64AuthorizationHeader(header: Header): (credentials: Option<string>)
    ensures credentials.Some? <==> header.Text? && Scheme <= header.s
    ensures credentials.Some? ==> header.s == Scheme + credentials.value
    ensures credentials.Some? ==> |credentials.value| == |header.s| - |Scheme|
    ensures credentials.Some? ==> credentials.value == header.s[|header.s| - |credentials.value|..]
  {
    if header.NoHeader? || header.NotText? then None
    else if !(Scheme <= header.s) then None
    else Some(header.s[|Scheme|..])
  }

  /** Prefixing any string with the scheme marker and extracting gives back that string, untrimmed. */
  lemma ExtractRoundTrip(credentials: string)
    ensures ExtractBase64AuthorizationHeader(Text(Scheme + credentials)) == Some(credentials)
  {
  }

  /** A header that differs from the marker in case or names another scheme is refused. */
  lemma OtherSchemesRefused(token: string)
    ensures ExtractBase64AuthorizationHeader(Text("basic " + token)) == None
    ensures ExtractBase64AuthorizationHeader(Text("Bearer " + token)) == None
  {
    assert ("basic " + token)[0] != Scheme[0];
    assert ("Bearer " + token)[1] != Scheme[1];
  }

  /** The bare marker yields the empty credentials, not `None`. */
  lemma BareSchemeGivesEmpty()
    ensures ExtractBase64AuthorizationHeader(Text("Basic ")) == Some("")
  {
  }
}
