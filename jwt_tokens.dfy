/** Extraction of the bearer token from an `Authorization` header value.  The scheme
    name is the one of section 2.1 of RFC 6750, but matched case-sensitively and with
    exactly one following space. */
module JwtTokens {
  import opened Wrappers
  import opened JavaStrings

  const BearerPrefix: string := "Bearer "

  /** `JwtTokenUtil.extractToken`: `None` stands for a missing header and for the `null` result. */
  function ExtractToken(header: Option<string>): (r: Option<string>)
    ensures r.Some? <==> header.Some? && StartsWith(header.value, BearerPrefix)
    ensures r.Some? ==> header.value == BearerPrefix + r.value
  {
    if header.Some? && StartsWith(header.value, BearerPrefix) then Some(header.value[|BearerPrefix|..])
    else None
  }

  /** Prefixing any token with the scheme and extracting it again gives the token back. */
  lemma ExtractTokenRoundTrip(t: string)
    ensures ExtractToken(Some(BearerPrefix + t)) == Some(t)
  {
    assert (BearerPrefix + t)[..|BearerPrefix|] == BearerPrefix;
    assert (BearerPrefix + t)[|BearerPrefix|..] == t;
  }

  /** A header holding only the scheme yields the empty token, not `null`. */
  lemma EmptyTokenAfterScheme()
    ensures ExtractToken(Some("Bearer ")) == Some("")
  {
    ExtractTokenRoundTrip("");
    assert BearerPrefix + "" == "Bearer ";
  }

  /** The scheme is matched case-sensitively and the space after it is required. */
  lemma SchemeIsExact()
    ensures ExtractToken(Some("bearer abc")) == None
    ensures ExtractToken(Some("BEARER abc")) == None
    ensures ExtractToken(Some("Bearer")) == None
    ensures ExtractToken(Some("Bearerabc")) == None
    ensures ExtractToken(None) == None
  {
    assert "bearer abc"[0] != BearerPrefix[0];
    assert "BEARER abc"[1] != BearerPrefix[1];
    assert "Bearerabc"[6] != BearerPrefix[6];
  }
}
