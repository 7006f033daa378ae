/**
 The Basic credentials of the authorize-account call (section 2 of RFC 7617):
 `Basic ` followed by the base64 of the UTF-8 bytes of `accountId:appKey`.
 */
module Credentials {
  import opened Common
  import Utf8
  import Base64

  const Scheme: string := "Basic "

  /** The Authorization header value sent to the authorize-account endpoint. */
  function BasicAuthorization(accountId: string, appKey: string): (r: string)
    ensures |r| >= |Scheme| && r[..|Scheme|] == Scheme
    ensures forall i :: |Scheme| <= i < |r| ==> Base64.IsBase64Char(r[i]) || r[i] == '='
  {
    Scheme + Base64.Encode(Utf8.Encode(accountId + ":" + appKey))
  }

  /** What a receiver reads back from a Basic header: the user-id and the password, or `None`. */
  function ParseBasicAuthorization(header: string): (r: Option<(string, string)>)
  {
    if |header| < |Scheme| || header[..|Scheme|] != Scheme then None
    else match Base64.Decode(header[|Scheme|..])
      case None => None
      case Some(bytes) =>
        match Utf8.Decode(bytes)
        case None => None
        case Some(text) => SplitAtFirst(text, ':')
  }

  /**
   The header carries the credentials faithfully: a receiver splitting at the
   first colon recovers the account id and the application key, provided the
   account id has no colon (the user-id restriction of RFC 7617).
   */
  lemma BasicAuthorizationRoundTrip(accountId: string, appKey: string)
    requires ':' !in accountId
    ensures ParseBasicAuthorization(BasicAuthorization(accountId, appKey)) == Some((accountId, appKey))
  {
    var text := accountId + ":" + appKey;
    var header := BasicAuthorization(accountId, appKey);
    assert header[..|Scheme|] == Scheme;
    assert header[|Scheme|..] == Base64.Encode(Utf8.Encode(text));
    Base64.DecodeEncode(Utf8.Encode(text));
    Utf8.DecodeEncode(text);
    SplitAtFirstOfJoin(accountId, ':', appKey);
    assert text == accountId + [':'] + appKey;
  }
}
