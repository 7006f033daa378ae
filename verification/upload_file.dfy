/**
 The request upload_file sends: which upload URL and token it uses, and the
 headers, in particular the percent-encoded destination name.
 */
module UploadFile {
  import opened Common
  import Buckets
  import Utf8
  import DestinationName
  import PercentEncoding

  /** The content type every upload declares, letting the service pick one. */
  const AutoContentType: string := "b2/x-auto"

  /** An upload URL and the token that goes with it. */
  datatype UploadTarget = UploadTarget(url: string, authorizationToken: Option<string>)

  /** The request upload_file sends; the body is the file content and is not modelled. */
  datatype UploadRequest = UploadRequest(
    url: string,
    authorization: Option<string>,
    fileName: string,
    contentLength: nat,
    contentType: string,
    sha1: string)

  /**
   The `X-Bz-File-Name` header: the normalised destination name, percent-encoded
   with nothing safe; `mapped` says whether the file could be memory-mapped.
   */
  function EncodedFileName(path: string, filename: Option<string>, mapped: bool): (r: string)
    ensures PercentEncoding.WellFormed(r)
    ensures '/' !in r && ' ' !in r
    ensures PercentEncoding.DecodeBytes(r) == Some(Utf8.Encode(DestinationName.NormalizedName(path, filename, mapped)))
  {
    var name := DestinationName.NormalizedName(path, filename, mapped);
    PercentEncoding.QuoteRoundTrip(name);
    PercentEncoding.Quote(name)
  }

  /**
   The URL and token an upload uses: a worker's own pair when it passed a
   non-empty URL, otherwise a fresh pair from get_upload_url for the resolved
   bucket; `issue` is the service's answer for a bucket id. (The client's own
   cached pair is never assigned, so the fetch branch is the only other one.)
   */
  function ChooseUploadTarget(threadUrl: Option<string>, threadToken: Option<string>,
                              bucketId: Option<string>, bucketName: Option<string>,
                              buckets: seq<Buckets.Bucket>, issue: string -> UploadTarget)
    : (r: Result<UploadTarget>)
    ensures Truthy(threadUrl) ==> r == Ok(UploadTarget(threadUrl.value, threadToken))
    ensures !Truthy(threadUrl) ==>
      (r.Ok? <==> Buckets.ResolveBucketId(bucketId, bucketName, buckets).Ok?)
    ensures !Truthy(threadUrl) && r.Ok? ==>
      r.value == issue(Buckets.ResolveBucketId(bucketId, bucketName, buckets).value)
    ensures !Truthy(threadUrl) && Truthy(bucketId) && r.Ok? ==> r.value == issue(bucketId.value)
    ensures !Truthy(threadUrl) && !Truthy(bucketId) && r.Ok? ==>
      exists b :: b in buckets && b.bucketName == bucketName.value && r.value == issue(b.bucketId)
  {
    if Truthy(threadUrl) then Ok(UploadTarget(threadUrl.value, threadToken))
    else match Buckets.ResolveBucketId(bucketId, bucketName, buckets)
      case Err(e) => Err(e)
      case Ok(id) => Ok(issue(id))
  }

  /**
   upload_file, given the file's size and SHA-1 hex digest: the request carries
   the chosen target, the encoded destination name, the size, the automatic
   content type and the digest. The file can be memory-mapped exactly when it
   is not empty.
   */
  function UploadFileRequest(path: string, filename: Option<string>, size: nat, sha1: string,
                             threadUrl: Option<string>, threadToken: Option<string>,
                             bucketId: Option<string>, bucketName: Option<string>,
                             buckets: seq<Buckets.Bucket>, issue: string -> UploadTarget)
    : (r: Result<UploadRequest>)
    ensures r.Ok? <==> ChooseUploadTarget(threadUrl, threadToken, bucketId, bucketName, buckets, issue).Ok?
    ensures r.Ok? ==>
      var t := ChooseUploadTarget(threadUrl, threadToken, bucketId, bucketName, buckets, issue).value;
      r.value.url == t.url && r.value.authorization == t.authorizationToken
    ensures r.Ok? ==> r.value.contentType == AutoContentType
    ensures r.Ok? ==> r.value.contentLength == size && r.value.sha1 == sha1
    ensures r.Ok? ==> '/' !in r.value.fileName && ' ' !in r.value.fileName
    ensures r.Ok? ==>
      PercentEncoding.DecodeBytes(r.value.fileName) == Some(Utf8.Encode(DestinationName.NormalizedName(path, filename, size > 0)))
  {
    match ChooseUploadTarget(threadUrl, threadToken, bucketId, bucketName, buckets, issue)
    case Err(e) => Err(e)
    case Ok(t) =>
      Ok(UploadRequest(t.url, t.authorizationToken, EncodedFileName(path, filename, size > 0), size, AutoContentType, sha1))
  }
}
