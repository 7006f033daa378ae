/**
 Listing parameters of list_file_names and the file chosen by
 get_file_info_by_name.
 */
module FileListing {
  import opened Common
  import Buckets

  /** The largest page size the listing call accepts. */
  const MaxFileCountLimit: int := 10000
  /** The page size used when none, or a negative one, is given. */
  const DefaultMaxFileCount: int := 100

  /**
   The page-size clamp: above the limit becomes the limit, then a negative value
   becomes the default; everything else passes through.
   */
  function ClampMaxFileCount(n: int): (r: int)
    ensures 0 <= r <= MaxFileCountLimit
    ensures n > MaxFileCountLimit ==> r == MaxFileCountLimit
    ensures n < 0 ==> r == DefaultMaxFileCount
    ensures 0 <= n <= MaxFileCountLimit ==> r == n
  {
    var capped := if n > MaxFileCountLimit then MaxFileCountLimit else n;
    if capped < 0 then DefaultMaxFileCount else capped
  }

  /** Clamping an already clamped count changes nothing. */
  lemma ClampIsIdempotent(n: int)
    ensures ClampMaxFileCount(ClampMaxFileCount(n)) == ClampMaxFileCount(n)
  {
  }

  /** The body of a list_file_names request; optional fields are omitted when `None`. */
  datatype ListRequest = ListRequest(bucketId: string, maxFileCount: int,
                                     startFileName: Option<string>, prefix: Option<string>)

  /** list_file_names: resolve the bucket, clamp the page size, pass the optional fields through. */
  function ListFileNamesRequest(bucketId: Option<string>, bucketName: Option<string>,
                                buckets: seq<Buckets.Bucket>, maxFileCount: int,
                                startFileName: Option<string>, prefix: Option<string>)
    : (r: Result<ListRequest>)
    ensures r.Ok? <==> Buckets.ResolveBucketId(bucketId, bucketName, buckets).Ok?
    ensures r.Ok? ==> r.value.bucketId == Buckets.ResolveBucketId(bucketId, bucketName, buckets).value
    ensures Truthy(bucketId) && r.Ok? ==> r.value.bucketId == bucketId.value
    ensures !Truthy(bucketId) && r.Ok? ==>
      exists b :: b in buckets && b.bucketName == bucketName.value && b.bucketId == r.value.bucketId
    ensures r.Ok? ==> 0 <= r.value.maxFileCount <= MaxFileCountLimit
    ensures r.Ok? ==> r.value.maxFileCount == ClampMaxFileCount(maxFileCount)
    ensures r.Ok? && maxFileCount < 0 ==> r.value.maxFileCount == DefaultMaxFileCount
    ensures r.Ok? && maxFileCount > MaxFileCountLimit ==> r.value.maxFileCount == MaxFileCountLimit
    ensures r.Ok? && 0 <= maxFileCount <= MaxFileCountLimit ==> r.value.maxFileCount == maxFileCount
    ensures r.Ok? ==> r.value.startFileName == startFileName && r.value.prefix == prefix
  {
    match Buckets.ResolveBucketId(bucketId, bucketName, buckets)
    case Err(e) => Err(e)
    case Ok(id) => Ok(ListRequest(id, ClampMaxFileCount(maxFileCount), startFileName, prefix))
  }

  /** One entry of a file listing. */
  datatype FileVersion = FileVersion(fileName: string, fileId: string)

  /** `needle` occurs somewhere in `hay` as a contiguous run: Python's `needle in hay`. */
  ghost predicate IsSubstring(needle: string, hay: string)
  {
    exists i :: 0 <= i <= |hay| - |needle| && needle <= hay[i..]
  }

  /** A left-to-right scan deciding substring occurrence. */
  function Contains(hay: string, needle: string): (r: bool)
    ensures r <==> IsSubstring(needle, hay)
    decreases |hay|
  {
    if needle <= hay then
      assert hay[0..] == hay;
      true
    else if |hay| == 0 then false
    else
      var r := Contains(hay[1..], needle);
      assert forall i :: 1 <= i <= |hay| ==> hay[i..] == hay[1..][i - 1..];
      r
  }

  /**
   The id of the file get_file_info_by_name fetches: the first listed file whose
   name contains the requested name, or `None`.
   */
  function FileIdByName(fileName: string, files: seq<FileVersion>): (r: Option<string>)
    ensures r.Some? ==> exists i :: 0 <= i < |files| && files[i].fileId == r.value
                                  && IsSubstring(fileName, files[i].fileName)
                                  && forall j :: 0 <= j < i ==> !IsSubstring(fileName, files[j].fileName)
    ensures r.None? <==> forall f :: f in files ==> !IsSubstring(fileName, f.fileName)
  {
    match FirstIndex(files, (f: FileVersion) => Contains(f.fileName, fileName))
    case None => None
    case Some(i) => Some(files[i].fileId)
  }

  /** Every name contains the empty string, so an empty name selects the first listed file. */
  lemma EmptyNameSelectsFirstFile(files: seq<FileVersion>)
    requires |files| > 0
    ensures FileIdByName("", files) == Some(files[0].fileId)
  {
    assert Contains(files[0].fileName, "");
  }
}
