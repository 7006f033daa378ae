/**
 Which files recursive_upload uploads (or queues) and the count it returns. The
 directory walk, the symlink test and regular-expression matching are inputs:
 the walk is the sequence of (directory, file name) pairs it reports, `isLink`
 answers the symlink test, `matches` answers "does this pattern match at the
 start of this path", and `uploadOk` says whether uploading a path succeeds.
 */
module RecursiveUpload {
  import opened Common
  import Buckets

  /** One file reported by the walk: its directory and its name. */
  datatype WalkEntry = WalkEntry(root: string, name: string)

  /** The path the filters and the upload see: directory, slash, name. */
  function FullPath(e: WalkEntry): string
  {
    e.root + "/" + e.name
  }

  /** The optional exclude and include patterns; an empty pattern counts as none. */
  datatype Patterns = Patterns(excludePattern: Option<string>, includePattern: Option<string>)

  /** The exclude pattern is set and matches the path. */
  predicate ExcludeMatches(p: Patterns, matches: (string, string) -> bool, path: string)
  {
    Truthy(p.excludePattern) && matches(p.excludePattern.value, path)
  }

  /** The include pattern is set and matches the path. */
  predicate IncludeMatches(p: Patterns, matches: (string, string) -> bool, path: string)
  {
    Truthy(p.includePattern) && matches(p.includePattern.value, path)
  }

  /**
   The directory rule: a file is taken iff it is not a symlink, the exclude
   pattern does not match it, and there is no include pattern or it matches.
   */
  predicate DirectoryAdmits(p: Patterns, matches: (string, string) -> bool,
                            isLink: string -> bool, path: string)
  {
    && !isLink(path)
    && !ExcludeMatches(p, matches, path)
    && (!Truthy(p.includePattern) || IncludeMatches(p, matches, path))
  }

  /** The paths of the walk that the directory rule admits, in walk order. */
  function Admitted(walk: seq<WalkEntry>, p: Patterns, matches: (string, string) -> bool,
                    isLink: string -> bool): (r: seq<string>)
    ensures |r| <= |walk|
  {
    if |walk| == 0 then []
    else
      var last := FullPath(walk[|walk| - 1]);
      var front := Admitted(walk[..|walk| - 1], p, matches, isLink);
      if DirectoryAdmits(p, matches, isLink, last) then front + [last] else front
  }

  /**
   The admitted paths are exactly the walk's paths that pass the directory rule:
   each one passes it and comes from the walk, and each walk path passing it is there.
   */
  lemma {:induction false} AdmittedMembers(walk: seq<WalkEntry>, p: Patterns, matches: (string, string) -> bool,
                                           isLink: string -> bool)
    ensures forall x :: x in Admitted(walk, p, matches, isLink) ==> DirectoryAdmits(p, matches, isLink, x)
    ensures forall i :: 0 <= i < |walk| && DirectoryAdmits(p, matches, isLink, FullPath(walk[i]))
                        ==> FullPath(walk[i]) in Admitted(walk, p, matches, isLink)
    ensures forall x :: x in Admitted(walk, p, matches, isLink) ==>
                        exists i :: 0 <= i < |walk| && FullPath(walk[i]) == x
    decreases |walk|
  {
    if |walk| > 0 {
      var init := walk[..|walk| - 1];
      AdmittedMembers(init, p, matches, isLink);
      assert forall i :: 0 <= i < |init| ==> init[i] == walk[i];
    }
  }

  /** The admitted paths of a prefix of the walk come first among the admitted paths of the whole walk. */
  lemma {:induction false} AdmittedPrefix(walk: seq<WalkEntry>, n: nat, p: Patterns,
                                          matches: (string, string) -> bool, isLink: string -> bool)
    requires n <= |walk|
    ensures Admitted(walk[..n], p, matches, isLink) <= Admitted(walk, p, matches, isLink)
    decreases |walk| - n
  {
    if n < |walk| {
      AdmittedPrefix(walk, n + 1, p, matches, isLink);
      assert walk[..n + 1][..n] == walk[..n];
    } else {
      assert walk[..n] == walk;
    }
  }

  /** Extending the walk by one entry extends the admitted paths by that entry's path or by nothing. */
  lemma AdmittedStep(walk: seq<WalkEntry>, i: nat, p: Patterns, matches: (string, string) -> bool,
                     isLink: string -> bool)
    requires i < |walk|
    ensures Admitted(walk[..i + 1], p, matches, isLink)
         == Admitted(walk[..i], p, matches, isLink)
            + (if DirectoryAdmits(p, matches, isLink, FullPath(walk[i])) then [FullPath(walk[i])] else [])
  {
    assert walk[..i + 1][..i] == walk[..i];
  }

  /**
   When the admitted paths before entry `i` all upload and entry `i` is admitted
   but fails, entry `i` is the first failing admitted path of the whole walk.
   */
  lemma FirstFailure(walk: seq<WalkEntry>, i: nat, p: Patterns, matches: (string, string) -> bool,
                     isLink: string -> bool, uploadOk: string -> bool)
    requires i < |walk|
    requires DirectoryAdmits(p, matches, isLink, FullPath(walk[i])) && !uploadOk(FullPath(walk[i]))
    requires forall x :: x in Admitted(walk[..i], p, matches, isLink) ==> uploadOk(x)
    ensures var all := Admitted(walk, p, matches, isLink);
      exists k :: 0 <= k < |all| && all[k] == FullPath(walk[i]) && forall j :: 0 <= j < k ==> uploadOk(all[j])
  {
    var before := Admitted(walk[..i], p, matches, isLink);
    AdmittedStep(walk, i, p, matches, isLink);
    AdmittedPrefix(walk, i + 1, p, matches, isLink);
    var all := Admitted(walk, p, matches, isLink);
    var k := |before|;
    assert all[k] == FullPath(walk[i]);
    assert forall j :: 0 <= j < k ==> all[j] == before[j];
  }

  /**
   What a run returns: the paths it took, in order, and the count. A path taken
   in sequential mode has been uploaded; one taken in multithreaded mode has only
   been queued, and a worker may still give up on it.
   */
  datatype UploadRun = UploadRun(taken: seq<string>, count: int)

  /**
   The directory branch. Each file reported by the walk is checked in turn (symlink,
   exclude, include); an admitted file is queued (multithreaded) or uploaded on the
   spot (sequential), and counted. A failing upload in sequential mode raises out of
   the call; queued files are counted whatever becomes of them. The queue is the
   one the constructor evidently means to keep (see `QueueWalkAsWritten`).
   */
  method WalkDirectory(walk: seq<WalkEntry>, p: Patterns, matches: (string, string) -> bool,
                       isLink: string -> bool, multithread: bool, uploadOk: string -> bool)
    returns (r: Result<UploadRun>)
    ensures multithread ==>
      r == Ok(UploadRun(Admitted(walk, p, matches, isLink), |Admitted(walk, p, matches, isLink)|))
    ensures !multithread ==>
      (r.Ok? <==> forall x :: x in Admitted(walk, p, matches, isLink) ==> uploadOk(x))
    ensures r.Ok? ==>
      r.value == UploadRun(Admitted(walk, p, matches, isLink), |Admitted(walk, p, matches, isLink)|)
    ensures r.Err? ==>
      var all := Admitted(walk, p, matches, isLink);
      exists k :: 0 <= k < |all| && r.error == UploadFailed(all[k]) && !uploadOk(all[k])
                  && forall j :: 0 <= j < k ==> uploadOk(all[j])
  {
    var taken: seq<string> := [];
    var nfiles := 0;
    var i := 0;
    while i < |walk|
      invariant 0 <= i <= |walk|
      invariant taken == Admitted(walk[..i], p, matches, isLink)
      invariant nfiles == |taken|
      invariant !multithread ==> forall x :: x in taken ==> uploadOk(x)
    {
      var path := FullPath(walk[i]);
      AdmittedStep(walk, i, p, matches, isLink);
      if isLink(path) {
      } else if ExcludeMatches(p, matches, path) {
      } else if Truthy(p.includePattern) && !IncludeMatches(p, matches, path) {
      } else {
        if !multithread && !uploadOk(path) {
          FirstFailure(walk, i, p, matches, isLink, uploadOk);
          return Err(UploadFailed(path));
        }
        taken := taken + [path];
        nfiles := nfiles + 1;
      }
      i := i + 1;
    }
    assert walk[..i] == walk;
    r := Ok(UploadRun(taken, nfiles));
  }

  /**
   The multithreaded directory branch as the constructor leaves it: the queue
   attribute is overwritten with the one-element tuple `(None,)`, which has no
   `put`, so the first admitted file raises AttributeError out of the call; a
   walk that admits nothing still returns 0.
   */
  function QueueWalkAsWritten(walk: seq<WalkEntry>, p: Patterns, matches: (string, string) -> bool,
                              isLink: string -> bool): (r: Result<UploadRun>)
    ensures r.Ok? <==> forall i :: 0 <= i < |walk| ==> !DirectoryAdmits(p, matches, isLink, FullPath(walk[i]))
    ensures r.Ok? ==> r.value == UploadRun([], 0)
    ensures r.Err? ==> exists i :: 0 <= i < |walk| && r.error == QueueUnavailable(FullPath(walk[i]))
                                   && DirectoryAdmits(p, matches, isLink, FullPath(walk[i]))
  {
    var admitted := Admitted(walk, p, matches, isLink);
    AdmittedMembers(walk, p, matches, isLink);
    if |admitted| == 0 then Ok(UploadRun([], 0))
    else
      assert admitted[0] in admitted;
      Err(QueueUnavailable(admitted[0]))
  }

  /** A walk reporting one admitted file already makes the multithreaded branch raise. */
  lemma QueueFailsOnFirstAdmittedFile(e: WalkEntry, p: Patterns, matches: (string, string) -> bool,
                                      isLink: string -> bool)
    requires DirectoryAdmits(p, matches, isLink, FullPath(e))
    ensures QueueWalkAsWritten([e], p, matches, isLink) == Err(QueueUnavailable(FullPath(e)))
  {
  }

  /**
   The single-path decision as the source computes it: a counter starts at 1, a
   non-symlink loses one when the exclude pattern matches and gains one when the
   include pattern matches, and the path is uploaded when the counter is positive.
   */
  function SinglePathCounter(p: Patterns, matches: (string, string) -> bool,
                             isLink: string -> bool, path: string): (n: int)
    ensures 0 <= n <= 2
    ensures n > 0 <==> isLink(path) || !ExcludeMatches(p, matches, path) || IncludeMatches(p, matches, path)
  {
    var start := 1;
    var afterExclude := if !isLink(path) && ExcludeMatches(p, matches, path) then start - 1 else start;
    if !isLink(path) && IncludeMatches(p, matches, path) then afterExclude + 1 else afterExclude
  }

  /**
   The single-path branch: upload when the counter is positive and return 1,
   otherwise return the counter, which is then 0.
   */
  function SinglePath(path: string, p: Patterns, matches: (string, string) -> bool,
                      isLink: string -> bool, uploadOk: string -> bool): (r: Result<UploadRun>)
    ensures r.Ok? ==> r.value.count in {0, 1} && r.value.count == |r.value.taken|
    ensures r.Ok? && r.value.count == 1 ==> r.value.taken == [path]
    ensures (r.Ok? && r.value.count == 1) || r.Err? <==>
      isLink(path) || !ExcludeMatches(p, matches, path) || IncludeMatches(p, matches, path)
    ensures r.Err? ==> r.error == UploadFailed(path) && !uploadOk(path)
    ensures isLink(path) || !ExcludeMatches(p, matches, path) || IncludeMatches(p, matches, path) ==>
      (r.Ok? <==> uploadOk(path))
    ensures !(isLink(path) || !ExcludeMatches(p, matches, path) || IncludeMatches(p, matches, path)) ==>
      r == Ok(UploadRun([], 0))
  {
    var nfiles := SinglePathCounter(p, matches, isLink, path);
    if nfiles > 0 then
      if uploadOk(path) then Ok(UploadRun([path], 1)) else Err(UploadFailed(path))
    else
      Ok(UploadRun([], nfiles))
  }

  /** A symlink is skipped by the directory rule but uploaded by the single-path rule. */
  lemma SymlinkRulesDiffer(p: Patterns, matches: (string, string) -> bool,
                           isLink: string -> bool, path: string)
    requires isLink(path)
    ensures !DirectoryAdmits(p, matches, isLink, path)
    ensures SinglePathCounter(p, matches, isLink, path) > 0
  {
  }

  /**
   An include pattern that does not match blocks a file in a directory, but not
   a single path that the exclude pattern lets through.
   */
  lemma IncludeRulesDiffer(p: Patterns, matches: (string, string) -> bool,
                           isLink: string -> bool, path: string)
    requires Truthy(p.includePattern) && !matches(p.includePattern.value, path)
    requires !ExcludeMatches(p, matches, path)
    ensures !DirectoryAdmits(p, matches, isLink, path)
    ensures SinglePathCounter(p, matches, isLink, path) > 0
  {
  }

  /**
   recursive_upload: the bucket arguments are checked first (the lookup's
   answer is otherwise unused), then the directory or the single-path branch runs.
   */
  method RecursiveUpload(bucketId: Option<string>, bucketName: Option<string>,
                         buckets: seq<Buckets.Bucket>, path: string, isDir: bool,
                         walk: seq<WalkEntry>, p: Patterns, matches: (string, string) -> bool,
                         isLink: string -> bool, multithread: bool, uploadOk: string -> bool)
    returns (r: Result<UploadRun>)
    ensures !Truthy(bucketId) && !Truthy(bucketName) ==> r == Err(MissingBucketReference)
    ensures (Truthy(bucketId) || Truthy(bucketName)) && isDir && r.Ok? ==>
      r.value.taken == Admitted(walk, p, matches, isLink) && r.value.count == |r.value.taken|
    ensures (Truthy(bucketId) || Truthy(bucketName)) && isDir && multithread ==> r.Ok?
    ensures (Truthy(bucketId) || Truthy(bucketName)) && isDir && !multithread ==>
      (r.Ok? <==> forall x :: x in Admitted(walk, p, matches, isLink) ==> uploadOk(x))
    ensures (Truthy(bucketId) || Truthy(bucketName)) && r.Err? && isDir ==>
      var all := Admitted(walk, p, matches, isLink);
      exists k :: 0 <= k < |all| && r.error == UploadFailed(all[k]) && !uploadOk(all[k])
                  && forall j :: 0 <= j < k ==> uploadOk(all[j])
    ensures (Truthy(bucketId) || Truthy(bucketName)) && !isDir ==>
      r == SinglePath(path, p, matches, isLink, uploadOk)
    ensures r.Ok? ==> r.value.count == |r.value.taken|
  {
    var info := Buckets.GetBucketInfo(bucketId, bucketName, buckets);
    if info.Err? {
      return Err(info.error);
    }
    if isDir {
      r := WalkDirectory(walk, p, matches, isLink, multithread, uploadOk);
    } else {
      r := SinglePath(path, p, matches, isLink, uploadOk);
    }
  }
}
