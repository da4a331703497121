/**
 * The slice of the HTTP framework the redirect middleware touches: status
 * codes, the `Location` header, the downstream service's response and error,
 * and the rule a string must meet to become a header value.
 */
module Http {

  type StatusCode = nat

  /** 301 Moved Permanently, section 15.4.2 of RFC 9110. */
  const MovedPermanently: StatusCode := 301

  /** 307 Temporary Redirect, section 15.4.8 of RFC 9110. */
  const TemporaryRedirect: StatusCode := 307

  /** The `Location` field of section 10.2.2 of RFC 9110; header names are stored lower-case. */
  const Location: string := "location"

  /** The request half of a service response, carried along untouched. */
  datatype RequestHandle = RequestHandle(id: nat)

  /** An error produced by the downstream service. */
  datatype ServiceError = ServiceError(message: string)

  /** A service response: the request it answers, a status, a header map and a body of type `B`. */
  datatype ServiceResponse<B> = ServiceResponse(
    request: RequestHandle,
    status: StatusCode,
    headers: map<string, string>,
    body: B)

  /** What awaiting a service yields: a response or an error. */
  datatype Outcome<B> = Ok(response: ServiceResponse<B>) | Err(error: ServiceError)

  /**
   * A character a header value may hold: visible ASCII, space, horizontal tab,
   * or any non-ASCII character (whose UTF-8 bytes are all 0x80 or above).
   * Control characters and DEL are refused.
   */
  predicate ValidHeaderChar(c: char)
  {
    (32 <= c as int && c as int != 127) || c as int == 9
  }

  /** A string that `HeaderValue::from_str` accepts. */
  predicate ValidHeaderValue(s: string)
  {
    forall i :: 0 <= i < |s| ==> ValidHeaderChar(s[i])
  }

  /** A header value is valid exactly when both of its parts are. */
  lemma ValidHeaderValueConcat(a: string, b: string)
    ensures ValidHeaderValue(a + b) <==> ValidHeaderValue(a) && ValidHeaderValue(b)
  {
    if ValidHeaderValue(a + b) {
      forall i | 0 <= i < |a| ensures ValidHeaderChar(a[i]) {
        assert a[i] == (a + b)[i];
      }
      forall i | 0 <= i < |b| ensures ValidHeaderChar(b[i]) {
        assert b[i] == (a + b)[|a| + i];
      }
    }
  }
}
