/**
 Bucket references: how a bucket id or name is checked and resolved against the
 bucket listing, and the argument rules of deleting and updating a bucket.
 */
module Buckets {
  import opened Common

  /** One entry of the bucket listing. */
  datatype Bucket = Bucket(bucketId: string, bucketName: string, bucketType: string)

  /** The field a lookup compares and the value it looks for. */
  datatype BucketKey = ById(id: string) | ByName(name: string)

  predicate KeyMatches(b: Bucket, k: BucketKey)
  {
    match k
    case ById(id) => b.bucketId == id
    case ByName(n) => b.bucketName == n
  }

  /** The only bucket types update_bucket accepts. */
  const ValidBucketTypes: set<string> := {"allPublic", "allPrivate"}

  /**
   The argument rule of get_bucket_info: neither reference is an error; when an
   id is given (alone or together with a name) the name is discarded and the id
   is used; otherwise the name is used.
   */
  function LookupKey(bucketId: Option<string>, bucketName: Option<string>): (r: Result<BucketKey>)
    ensures r.Err? <==> !Truthy(bucketId) && !Truthy(bucketName)
    ensures r.Err? ==> r.error == MissingBucketReference
    ensures Truthy(bucketId) ==> r == Ok(ById(bucketId.value))
    ensures !Truthy(bucketId) && Truthy(bucketName) ==> r == Ok(ByName(bucketName.value))
  {
    if !Truthy(bucketId) && !Truthy(bucketName) then Err(MissingBucketReference)
    else if !Truthy(bucketId) then Ok(ByName(bucketName.value))
    else Ok(ById(bucketId.value))
  }

  /** The first listed bucket whose keyed field equals the key's value. */
  function FindBucket(buckets: seq<Bucket>, k: BucketKey): (r: Option<Bucket>)
    ensures r.Some? ==> exists i :: 0 <= i < |buckets| && buckets[i] == r.value && KeyMatches(r.value, k)
                                  && forall j :: 0 <= j < i ==> !KeyMatches(buckets[j], k)
    ensures r.None? <==> forall b :: b in buckets ==> !KeyMatches(b, k)
  {
    match FirstIndex(buckets, b => KeyMatches(b, k))
    case None => None
    case Some(i) => Some(buckets[i])
  }

  /**
   get_bucket_info over the listing `buckets`: an error when no reference is
   given, otherwise the first bucket matching the chosen key, or `None`.
   */
  function GetBucketInfo(bucketId: Option<string>, bucketName: Option<string>, buckets: seq<Bucket>)
    : (r: Result<Option<Bucket>>)
    ensures r.Err? <==> !Truthy(bucketId) && !Truthy(bucketName)
    ensures r.Err? ==> r.error == MissingBucketReference
    ensures Truthy(bucketId) && r.Ok? && r.value.Some? ==> r.value.value.bucketId == bucketId.value
    ensures Truthy(bucketId) && r.Ok? ==>
      (r.value.None? <==> forall b :: b in buckets ==> b.bucketId != bucketId.value)
    ensures !Truthy(bucketId) && r.Ok? && r.value.Some? ==> r.value.value.bucketName == bucketName.value
    ensures !Truthy(bucketId) && r.Ok? ==>
      (r.value.None? <==> forall b :: b in buckets ==> b.bucketName != bucketName.value)
    ensures r.Ok? && r.value.Some? ==> r.value.value in buckets
    ensures r.Ok? ==> r.value == FindBucket(buckets, LookupKey(bucketId, bucketName).value)
  {
    match LookupKey(bucketId, bucketName)
    case Err(e) => Err(e)
    case Ok(k) => Ok(FindBucket(buckets, k))
  }

  /**
   The id of the bucket a call resolves to: the lookup's error, or an error when
   the lookup found nothing (the source subscripts the `None` it got back).
   */
  function ResolveBucketId(bucketId: Option<string>, bucketName: Option<string>, buckets: seq<Bucket>)
    : (r: Result<string>)
    ensures r.Ok? <==> GetBucketInfo(bucketId, bucketName, buckets).Ok? && GetBucketInfo(bucketId, bucketName, buckets).value.Some?
    ensures r.Ok? ==> r.value == GetBucketInfo(bucketId, bucketName, buckets).value.value.bucketId
    ensures r.Ok? ==> exists b :: b in buckets && b.bucketId == r.value
    ensures Truthy(bucketId) && r.Ok? ==> r.value == bucketId.value
    ensures !Truthy(bucketId) && r.Ok? ==>
      exists b :: b in buckets && b.bucketName == bucketName.value && b.bucketId == r.value
    ensures !Truthy(bucketId) && !Truthy(bucketName) ==> r == Err(MissingBucketReference)
    ensures (Truthy(bucketId) || Truthy(bucketName)) && r.Err? ==> r.error == BucketNotFound
  {
    match GetBucketInfo(bucketId, bucketName, buckets)
    case Err(e) => Err(e)
    case Ok(None) => Err(BucketNotFound)
    case Ok(Some(b)) => Ok(b.bucketId)
  }

  /**
   The bucket id delete_bucket sends: unlike the lookup, it refuses both
   references at once, and it checks the arguments before anything else.
   */
  function DeleteBucketId(bucketId: Option<string>, bucketName: Option<string>, buckets: seq<Bucket>)
    : (r: Result<string>)
    ensures !Truthy(bucketId) && !Truthy(bucketName) ==> r == Err(MissingBucketReference)
    ensures Truthy(bucketId) && Truthy(bucketName) ==> r == Err(BothBucketReferences)
    ensures Truthy(bucketId) && !Truthy(bucketName) ==>
      (r.Ok? <==> exists b :: b in buckets && b.bucketId == bucketId.value)
    ensures Truthy(bucketId) && r.Ok? ==> r.value == bucketId.value
    ensures !Truthy(bucketId) && Truthy(bucketName) ==>
      (r.Ok? <==> exists b :: b in buckets && b.bucketName == bucketName.value)
    ensures !Truthy(bucketId) && r.Ok? ==>
      exists b :: b in buckets && b.bucketName == bucketName.value && b.bucketId == r.value
    ensures !(Truthy(bucketId) && Truthy(bucketName)) ==> r == ResolveBucketId(bucketId, bucketName, buckets)
  {
    if !Truthy(bucketId) && !Truthy(bucketName) then Err(MissingBucketReference)
    else if Truthy(bucketId) && Truthy(bucketName) then Err(BothBucketReferences)
    else ResolveBucketId(bucketId, bucketName, buckets)
  }

  /** Both references at once: the lookup silently uses the id, deletion refuses. */
  lemma BothReferencesLookupVersusDelete(id: string, name: string, buckets: seq<Bucket>)
    requires id != "" && name != ""
    ensures GetBucketInfo(Some(id), Some(name), buckets) == Ok(FindBucket(buckets, ById(id)))
    ensures GetBucketInfo(Some(id), Some(name), buckets) == GetBucketInfo(Some(id), None, buckets)
    ensures DeleteBucketId(Some(id), Some(name), buckets) == Err(BothBucketReferences)
  {
  }

  /** The body of an update_bucket request. */
  datatype UpdateRequest = UpdateRequest(bucketId: string, bucketType: string)

  /**
   update_bucket: the type is checked against the whitelist first, then the
   bucket is resolved with the lookup's rules (both references are accepted).
   */
  function UpdateBucketRequest(bucketType: string, bucketId: Option<string>, bucketName: Option<string>,
                               buckets: seq<Bucket>): (r: Result<UpdateRequest>)
    ensures bucketType !in ValidBucketTypes ==> r == Err(InvalidBucketType)
    ensures r.Ok? ==> r.value.bucketType == bucketType && r.value.bucketType in ValidBucketTypes
    ensures bucketType in ValidBucketTypes ==>
      (r.Ok? <==> ResolveBucketId(bucketId, bucketName, buckets).Ok?)
    ensures r.Ok? ==> r.value.bucketId == ResolveBucketId(bucketId, bucketName, buckets).value
    ensures bucketType in ValidBucketTypes && Truthy(bucketId) ==>
      (r.Ok? <==> exists b :: b in buckets && b.bucketId == bucketId.value)
    ensures bucketType in ValidBucketTypes && !Truthy(bucketId) && Truthy(bucketName) ==>
      (r.Ok? <==> exists b :: b in buckets && b.bucketName == bucketName.value)
    ensures !Truthy(bucketId) && r.Ok? ==>
      exists b :: b in buckets && b.bucketName == bucketName.value && b.bucketId == r.value.bucketId
    ensures bucketType in ValidBucketTypes && !Truthy(bucketId) && !Truthy(bucketName) ==>
      r == Err(MissingBucketReference)
  {
    if bucketType !in ValidBucketTypes then Err(InvalidBucketType)
    else match ResolveBucketId(bucketId, bucketName, buckets)
      case Err(e) => Err(e)
      case Ok(id) => Ok(UpdateRequest(id, bucketType))
  }
}
