/**
 Shared vocabulary of the client model: optional values, results carrying the
 client's error conditions, bytes, Python truthiness of optional strings, and a
 first-match search used by every "take the first listed item that fits" rule.
 */
module Common {

  /** An optional value; `None` stands for Python's `None`. */
  datatype Option<+T> = None | Some(value: T)

  /** The exceptions the client raises, one constructor per distinct cause. */
  datatype Error =
    | MissingBucketReference   // neither a bucket id nor a bucket name was given
    | BothBucketReferences     // delete_bucket was given both a bucket id and a bucket name
    | InvalidBucketType        // update_bucket was given a type outside the whitelist
    | BucketNotFound           // the lookup returned None and the caller subscripted it
    | AuthorizationRejected    // the authorize-account call answered with an HTTP error
    | UploadFailed(path: string) // the upload call for this path raised
    | DestinationExists        // a download would overwrite an existing file
    | LifetimeNotComparable    // the age was compared with a tuple-valued lifetime (TypeError)
    | QueueUnavailable(path: string) // putting this path on the upload queue raised (AttributeError)

  /** Either a value or the error that a Python call would raise instead. */
  datatype Result<+T> = Ok(value: T) | Err(error: Error)

  /** An octet. */
  type byte = b: int | 0 <= b < 256

  /** Python truthiness of an optional string: `None` and `""` are both false. */
  predicate Truthy(s: Option<string>)
  {
    s.Some? && s.value != ""
  }

  /** Index of the first element of `s` that satisfies `p`, or `None` if there is none. */
  function FirstIndex<T>(s: seq<T>, p: T -> bool): (r: Option<nat>)
    ensures r.Some? ==> r.value < |s| && p(s[r.value])
    ensures r.Some? ==> forall j :: 0 <= j < r.value ==> !p(s[j])
    ensures r.None? <==> forall j :: 0 <= j < |s| ==> !p(s[j])
  {
    if |s| == 0 then None
    else if p(s[0]) then Some(0)
    else match FirstIndex(s[1..], p)
      case None => None
      case Some(k) => Some(k + 1)
  }

  /** Splits `s` at the first occurrence of `sep`: the part before it and the part after it. */
  function SplitAtFirst(s: string, sep: char): (r: Option<(string, string)>)
    ensures r.Some? ==> sep !in r.value.0 && s == r.value.0 + [sep] + r.value.1
    ensures r.None? <==> sep !in s
  {
    if |s| == 0 then None
    else if s[0] == sep then Some(("", s[1..]))
    else match SplitAtFirst(s[1..], sep)
      case None => None
      case Some((before, after)) => Some(([s[0]] + before, after))
  }

  /** Splits `s` at the last occurrence of `sep`: the part before it and the part after it. */
  function SplitAtLast(s: string, sep: char): (r: Option<(string, string)>)
    ensures r.Some? ==> sep !in r.value.1 && s == r.value.0 + [sep] + r.value.1
    ensures r.None? <==> sep !in s
  {
    if |s| == 0 then None
    else if s[|s| - 1] == sep then Some((s[..|s| - 1], ""))
    else match SplitAtLast(s[..|s| - 1], sep)
      case None => None
      case Some((before, after)) => Some((before, after + [s[|s| - 1]]))
  }

  /** Joining a separator-free left part to anything, the first separator is the joint. */
  lemma {:induction false} SplitAtFirstOfJoin(before: string, sep: char, after: string)
    requires sep !in before
    ensures SplitAtFirst(before + [sep] + after, sep) == Some((before, after))
    decreases |before|
  {
    var s := before + [sep] + after;
    if |before| == 0 {
      assert s[1..] == after;
    } else {
      assert s[0] == before[0];
      assert s[1..] == before[1..] + [sep] + after;
      SplitAtFirstOfJoin(before[1..], sep, after);
      assert [before[0]] + before[1..] == before;
    }
  }

  /** Joining anything to a separator-free right part, the last separator is the joint. */
  lemma {:induction false} SplitAtLastOfJoin(before: string, sep: char, after: string)
    requires sep !in after
    ensures SplitAtLast(before + [sep] + after, sep) == Some((before, after))
    decreases |after|
  {
    var s := before + [sep] + after;
    if |after| == 0 {
      assert s[..|s| - 1] == before;
    } else {
      var init := after[..|after| - 1];
      assert s[|s| - 1] == after[|after| - 1];
      assert s[..|s| - 1] == before + [sep] + init;
      SplitAtLastOfJoin(before, sep, init);
      assert init + [after[|after| - 1]] == after;
    }
  }
}
