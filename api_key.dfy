/**
 * The `X-API-Key` header check in front of every webhook. A rejection is the
 * HTTP exception the check raises; the check never answers `False`.
 */
module ApiKey {
  import opened Wrappers

  const HTTP_401_UNAUTHORIZED: int := 401

  datatype HttpException = HttpException(statusCode: int, detail: string)

  /** A header that is absent or empty counts as missing. */
  predicate Missing(key: Option<string>)
  {
    key.None? || key.value == ""
  }

  /**
   * `verify_api_key`: `header` is the request's `X-API-Key` header and
   * `configured` the key read from the environment, None when it is unset.
   */
  function VerifyApiKey(header: Option<string>, configured: Option<string>): (r: Result<bool, HttpException>)
    ensures r.Success? ==> r.value
    ensures r.Success? <==> !Missing(header) && configured == header
    ensures Missing(header) ==> r == Failure(HttpException(HTTP_401_UNAUTHORIZED, "X-API-Key header is required"))
    ensures !Missing(header) && configured != header ==>
              r == Failure(HttpException(HTTP_401_UNAUTHORIZED, "Invalid API key"))
  {
    if Missing(header) then
      Failure(HttpException(HTTP_401_UNAUTHORIZED, "X-API-Key header is required"))
    else if configured != header then
      Failure(HttpException(HTTP_401_UNAUTHORIZED, "Invalid API key"))
    else
      Success(true)
  }

  /** Exactly one header value is accepted, and only when a non-empty key is configured. */
  lemma OnlyConfiguredKeyAccepted(h1: Option<string>, h2: Option<string>, configured: Option<string>)
    requires VerifyApiKey(h1, configured).Success? && VerifyApiKey(h2, configured).Success?
    ensures h1 == h2 == configured
    ensures !Missing(configured)
  {
  }

  /** With the key unset or empty in the environment, every request is rejected. */
  lemma UnsetKeyRejectsAll(header: Option<string>, configured: Option<string>)
    requires Missing(configured)
    ensures VerifyApiKey(header, configured).Failure?
    ensures VerifyApiKey(header, configured).error.statusCode == HTTP_401_UNAUTHORIZED
  {
  }
}
