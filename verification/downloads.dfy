/**
 Downloads: the refuse-to-overwrite guard, which runs before any network call,
 and the URLs the three download paths and the download authorization build.
 Whether the destination file already exists is an input.
 */
module Downloads {
  import opened Common
  import Session
  import Buckets

  /** A GET request: the URL and the Authorization header, if any. */
  datatype DownloadRequest = DownloadRequest(url: string, authorization: Option<string>)

  const FilePath: string := "/file/"
  const ByIdPath: string := "/b2api/v1/b2_download_file_by_id?fileId="
  const AuthorizationQuery: string := "Authorization="

  /** download_file_with_authorized_url: the guard, then a plain GET of the given URL. */
  function DownloadWithAuthorizedUrl(url: string, destinationExists: bool, force: bool)
    : (r: Result<DownloadRequest>)
    ensures r.Err? <==> destinationExists && !force
    ensures r.Err? ==> r.error == DestinationExists
    ensures r.Ok? ==> r.value.url == url && r.value.authorization.None?
  {
    if destinationExists && !force then Err(DestinationExists)
    else Ok(DownloadRequest(url, None))
  }

  /** The URL of a file by bucket name and file name under the download base URL. */
  function FileByNameUrl(downloadUrl: string, bucketName: string, fileName: string): string
  {
    downloadUrl + FilePath + bucketName + "/" + fileName
  }

  /** Reads a by-name URL back: the bucket name runs up to the first slash after the fixed prefix. */
  function ParseFileByNameUrl(url: string, downloadUrl: string): (r: Option<(string, string)>)
  {
    var prefix := downloadUrl + FilePath;
    if |url| < |prefix| || url[..|prefix|] != prefix then None
    else SplitAtFirst(url[|prefix|..], '/')
  }

  /** The by-name URL names its bucket and file unambiguously when the bucket name has no slash. */
  lemma FileByNameUrlRoundTrip(downloadUrl: string, bucketName: string, fileName: string)
    requires '/' !in bucketName
    ensures ParseFileByNameUrl(FileByNameUrl(downloadUrl, bucketName, fileName), downloadUrl)
         == Some((bucketName, fileName))
  {
    var prefix := downloadUrl + FilePath;
    var url := FileByNameUrl(downloadUrl, bucketName, fileName);
    assert url == prefix + (bucketName + ['/'] + fileName);
    assert url[..|prefix|] == prefix;
    assert url[|prefix|..] == bucketName + ['/'] + fileName;
    SplitAtFirstOfJoin(bucketName, '/', fileName);
  }

  /**
   download_file_by_name: the guard first; then re-authorization if stale, the
   bucket lookup (a missing bucket is an error), and a GET with the token. The
   session after re-authorization is returned with the request.
   */
  function DownloadByName(s: Session.Session, now: int, reply: Option<Session.AuthReply>,
                          destinationExists: bool, force: bool,
                          bucketId: Option<string>, bucketName: Option<string>,
                          buckets: seq<Buckets.Bucket>, fileName: string)
    : (r: Result<(Session.Session, DownloadRequest)>)
    requires s.Consistent()
    ensures destinationExists && !force ==> r == Err(DestinationExists)
    ensures !(destinationExists && !force) ==>
      (r.Ok? <==> Session.EnsureAuthorized(s, now, reply).Ok? && Buckets.ResolveBucketId(bucketId, bucketName, buckets).Ok?)
    ensures !(destinationExists && !force) && Session.EnsureAuthorized(s, now, reply).Err? ==>
      r == Err(AuthorizationRejected)
    ensures (&& !(destinationExists && !force) && Session.EnsureAuthorized(s, now, reply).Ok?
             && !Truthy(bucketId) && !Truthy(bucketName)) ==> r == Err(MissingBucketReference)
    ensures r.Ok? ==> Session.EnsureAuthorized(s, now, reply) == Ok(r.value.0) && r.value.0.downloadUrl.Some?
    ensures r.Ok? ==> r.value.1.authorization == r.value.0.authToken
    ensures r.Ok? ==> Truthy(bucketId) || Truthy(bucketName)
    ensures r.Ok? ==> (exists b ::
      && b in buckets
      && r.value.1.url == FileByNameUrl(r.value.0.downloadUrl.value, b.bucketName, fileName)
      && (Truthy(bucketId) ==> b.bucketId == bucketId.value)
      && (!Truthy(bucketId) ==> b.bucketName == bucketName.value))
    ensures r.Ok? && !Truthy(bucketId) && '/' !in bucketName.value ==>
      ParseFileByNameUrl(r.value.1.url, r.value.0.downloadUrl.value) == Some((bucketName.value, fileName))
  {
    if destinationExists && !force then Err(DestinationExists)
    else match Session.EnsureAuthorized(s, now, reply)
      case Err(e) => Err(e)
      case Ok(s') =>
        match Buckets.GetBucketInfo(bucketId, bucketName, buckets)
        case Err(e) => Err(e)
        case Ok(None) => Err(BucketNotFound)
        case Ok(Some(b)) =>
          var url := FileByNameUrl(s'.downloadUrl.value, b.bucketName, fileName);
          assert '/' !in b.bucketName ==> ParseFileByNameUrl(url, s'.downloadUrl.value) == Some((b.bucketName, fileName)) by {
            if '/' !in b.bucketName {
              FileByNameUrlRoundTrip(s'.downloadUrl.value, b.bucketName, fileName);
            }
          }
          Ok((s', DownloadRequest(url, s'.authToken)))
  }

  /** The URL of a file by id under the download base URL. */
  function FileByIdUrl(downloadUrl: string, fileId: string): string
  {
    downloadUrl + ByIdPath + fileId
  }

  /** Reads a by-id URL back: what follows the fixed prefix is the file id. */
  function ParseFileByIdUrl(url: string, downloadUrl: string): (r: Option<string>)
  {
    var prefix := downloadUrl + ByIdPath;
    if |url| < |prefix| || url[..|prefix|] != prefix then None
    else Some(url[|prefix|..])
  }

  /** The by-id URL always gives its file id back. */
  lemma FileByIdUrlRoundTrip(downloadUrl: string, fileId: string)
    ensures ParseFileByIdUrl(FileByIdUrl(downloadUrl, fileId), downloadUrl) == Some(fileId)
  {
    var prefix := downloadUrl + ByIdPath;
    assert FileByIdUrl(downloadUrl, fileId) == prefix + fileId;
  }

  /**
   download_file_by_id: the guard first; then re-authorization if stale and a GET
   of the by-id URL with the token.
   */
  function DownloadById(s: Session.Session, now: int, reply: Option<Session.AuthReply>,
                        destinationExists: bool, force: bool, fileId: string)
    : (r: Result<(Session.Session, DownloadRequest)>)
    requires s.Consistent()
    ensures destinationExists && !force ==> r == Err(DestinationExists)
    ensures !(destinationExists && !force) ==>
      (r.Ok? <==> Session.EnsureAuthorized(s, now, reply).Ok?)
    ensures r.Ok? ==> Session.EnsureAuthorized(s, now, reply) == Ok(r.value.0) && r.value.0.downloadUrl.Some?
    ensures r.Ok? ==> r.value.1.authorization == r.value.0.authToken
    ensures r.Ok? ==> ParseFileByIdUrl(r.value.1.url, r.value.0.downloadUrl.value) == Some(fileId)
  {
    if destinationExists && !force then Err(DestinationExists)
    else match Session.EnsureAuthorized(s, now, reply)
      case Err(e) => Err(e)
      case Ok(s') =>
        FileByIdUrlRoundTrip(s'.downloadUrl.value, fileId);
        Ok((s', DownloadRequest(FileByIdUrl(s'.downloadUrl.value, fileId), s'.authToken)))
  }

  /** The body of a get-download-authorization request. */
  datatype DownloadAuthRequest = DownloadAuthRequest(bucketId: string, fileNamePrefix: string,
                                                     validDurationInSeconds: int)

  /** The fields of the get-download-authorization reply the client uses. */
  datatype DownloadAuthReply = DownloadAuthReply(fileNamePrefix: string, authorizationToken: string)

  /** The authorized URL: base, bucket name, the granted prefix, and the token as a query parameter. */
  function AuthorizedUrl(downloadUrl: string, bucketName: string, a: DownloadAuthReply): string
  {
    downloadUrl + FilePath + bucketName + "/" + a.fileNamePrefix + "?" + AuthorizationQuery + a.authorizationToken
  }

  /** Reads an authorized URL back into bucket name, prefix and token. */
  function ParseAuthorizedUrl(url: string, downloadUrl: string): (r: Option<(string, DownloadAuthReply)>)
  {
    match ParseFileByNameUrl(url, downloadUrl)
    case None => None
    case Some((bucketName, rest)) =>
      match SplitAtLast(rest, '?')
      case None => None
      case Some((prefix, query)) =>
        if |query| < |AuthorizationQuery| || query[..|AuthorizationQuery|] != AuthorizationQuery then None
        else Some((bucketName, DownloadAuthReply(prefix, query[|AuthorizationQuery|..])))
  }

  /**
   The authorized URL names bucket, prefix and token unambiguously when the
   bucket name has no slash and the token has no question mark.
   */
  lemma AuthorizedUrlRoundTrip(downloadUrl: string, bucketName: string, a: DownloadAuthReply)
    requires '/' !in bucketName && '?' !in a.authorizationToken
    ensures ParseAuthorizedUrl(AuthorizedUrl(downloadUrl, bucketName, a), downloadUrl) == Some((bucketName, a))
  {
    var query := AuthorizationQuery + a.authorizationToken;
    var rest := a.fileNamePrefix + ['?'] + query;
    assert AuthorizedUrl(downloadUrl, bucketName, a) == FileByNameUrl(downloadUrl, bucketName, rest);
    FileByNameUrlRoundTrip(downloadUrl, bucketName, rest);
    assert '?' !in AuthorizationQuery;
    assert '?' !in query;
    SplitAtLastOfJoin(a.fileNamePrefix, '?', query);
    assert query[..|AuthorizationQuery|] == AuthorizationQuery;
    assert query[|AuthorizationQuery|..] == a.authorizationToken;
  }

  /**
   get_download_authorization: re-authorization if stale, then a request for the
   bucket id and prefix with the client's validity duration; the service's reply
   is turned into the authorized URL under the given bucket name.
   */
  function DownloadAuthorization(s: Session.Session, now: int, reply: Option<Session.AuthReply>,
                                 bucketId: string, bucketName: string, fileNamePrefix: string,
                                 answer: DownloadAuthReply)
    : (r: Result<(Session.Session, DownloadAuthRequest, string)>)
    requires s.Consistent()
    ensures r.Ok? <==> Session.EnsureAuthorized(s, now, reply).Ok?
    ensures r.Ok? ==> Session.EnsureAuthorized(s, now, reply) == Ok(r.value.0) && r.value.0.downloadUrl.Some?
    ensures r.Ok? ==> r.value.1 == DownloadAuthRequest(bucketId, fileNamePrefix, s.validDuration)
    ensures r.Ok? && '/' !in bucketName && '?' !in answer.authorizationToken ==>
      ParseAuthorizedUrl(r.value.2, r.value.0.downloadUrl.value) == Some((bucketName, answer))
  {
    match Session.EnsureAuthorized(s, now, reply)
    case Err(e) => Err(e)
    case Ok(s') =>
      var url := AuthorizedUrl(s'.downloadUrl.value, bucketName, answer);
      assert '/' !in bucketName && '?' !in answer.authorizationToken ==>
        ParseAuthorizedUrl(url, s'.downloadUrl.value) == Some((bucketName, answer)) by {
        if '/' !in bucketName && '?' !in answer.authorizationToken {
          AuthorizedUrlRoundTrip(s'.downloadUrl.value, bucketName, answer);
        }
      }
      Ok((s', DownloadAuthRequest(bucketId, fileNamePrefix, s.validDuration), url))
  }
}
