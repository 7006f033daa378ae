# pyblazeb2 client core in Dafny

A model of `PyBlazeB2`, a small client for the Backblaze B2 storage API. The
client keeps an authorization (token, API URL, download URL, time stamp) and
refreshes it when it is stale; it resolves buckets by id or name against the
bucket listing; it builds the requests for listing, uploading and downloading
files; it uploads a whole directory tree, optionally through worker threads
that retry each file up to four times.

The model keeps the decisions and the data and replaces every outside effect by
an input: the service's answers (the authorize-account reply, the bucket
listing, the file listing, the download-authorization reply, the upload URL for
a bucket), the clock (`now`, whole seconds), the file system (whether a
destination exists, the directory walk, the symlink test, a file's size and
SHA-1 digest) and regular-expression matching.

Modules, one per concern:

- `Common` — `Option`, `Result` with one `Error` constructor per exception the
  client raises, Python truthiness of optional strings, first-match search,
  splitting at a separator.
- `Session` — the staleness test, re-authorization, the timeout choice.
- `Buckets` — bucket lookup, deletion and update argument rules.
- `FileListing` — the page-size clamp and the file chosen by name.
- `DestinationName`, `Utf8`, `PercentEncoding`, `UploadFile` — the name an
  upload is stored under and the upload request.
- `Base64`, `Credentials` — the Basic credentials of the authorize-account call
  (section 2 of RFC 7617, base64 of section 4 of RFC 4648).
- `RecursiveUpload`, `UploadWorker` — which files a recursive upload takes,
  its count, and a worker's retry loop.
- `Downloads` — the overwrite guard and the download URLs.

## Model

| member | source | states |
|---|---|---|
| `Common.FirstIndex` | pyblazeb2/pyblazeb2.py:135-138 | the index found satisfies the test and no earlier element does; none is found exactly when no element satisfies it |
| `Session.NewSession` | pyblazeb2/pyblazeb2.py:27-44 | a new client holds no token, URLs or stamp and keeps the given credentials, lifetime, validity duration and default timeout, so the first call at any time re-authorizes |
| `Session.EnsureAuthorized` | pyblazeb2/pyblazeb2.py:63-73 | a fresh session is left alone; a stale one takes token, API URL and download URL from the reply and is stamped with the current time, or the call fails when the service refuses; nothing else in the client changes |
| `Session.FreshForExactlyTheLifetime` | pyblazeb2/pyblazeb2.py:70-72 | after re-authorizing with a non-empty token and API URL, later calls skip re-authorization exactly while the age does not exceed the lifetime |
| `Session.StalenessPersists` | pyblazeb2/pyblazeb2.py:70-71 | a session too old at one time is too old at every later time |
| `Session.NeedsReauthAsWritten` | pyblazeb2/pyblazeb2.py:69-73 | with the tuple-valued lifetime the staleness test raises exactly when an authorization has been stamped, and otherwise agrees with the intended test |
| `Session.AsWrittenTestFailsAfterFirstAuthorization` | pyblazeb2/pyblazeb2.py:41 | a new client's first test answers and its first authorization succeeds, and every test after that raises |
| `Session.ChooseTimeout` | pyblazeb2/pyblazeb2.py:75-81 | the library default only when neither timeout is set; a non-zero per-call timeout wins; a zero one falls back to the client default, even when that is unset |
| `Buckets.LookupKey` | pyblazeb2/pyblazeb2.py:122-134 | no reference is an error; an id is used whenever one is given, the name only when there is no id |
| `Buckets.FindBucket` | pyblazeb2/pyblazeb2.py:135-139 | the bucket returned is the first listed one matching the key; `None` exactly when none matches |
| `Buckets.GetBucketInfo` | pyblazeb2/pyblazeb2.py:120-139 | errors exactly when neither reference is given; otherwise the first listed bucket with the given id (or, without id, the given name), `None` exactly when the listing has no such bucket |
| `Buckets.ResolveBucketId` | pyblazeb2/pyblazeb2.py:157-158 | succeeds exactly when the lookup finds a bucket, and then yields that bucket's id: the given id, or the id of a listed bucket carrying the given name; a lookup returning nothing is an error |
| `Buckets.DeleteBucketId` | pyblazeb2/pyblazeb2.py:141-152 | refuses no reference and both references; with one reference it resolves like the lookup, succeeding exactly when a listed bucket carries that reference and yielding that bucket's id |
| `Buckets.BothReferencesLookupVersusDelete` | pyblazeb2/pyblazeb2.py:125-147 | given both an id and a name, the lookup ignores the name while deletion refuses |
| `Buckets.UpdateBucketRequest` | pyblazeb2/pyblazeb2.py:234-244 | a type outside `allPublic`/`allPrivate` is refused first; with a whitelisted type it succeeds exactly when the bucket resolves (by id, or by name when there is no id), and the request carries the resolved bucket's id and the type |
| `FileListing.ClampMaxFileCount` | pyblazeb2/pyblazeb2.py:250-254 | the page size always lies in 0..10000; above the limit gives the limit, negative gives 100, in range passes through |
| `FileListing.ClampIsIdempotent` | pyblazeb2/pyblazeb2.py:250-254 | clamping twice is clamping once |
| `FileListing.ListFileNamesRequest` | pyblazeb2/pyblazeb2.py:246-261 | succeeds exactly when the bucket resolves; the request carries the resolved bucket's id (the given id, or that of a bucket with the given name), the page size clamped as `ClampMaxFileCount` states (a negative value becomes 100, one above the limit becomes 10000, any other passes through), and the optional start name and prefix unchanged |
| `FileListing.Contains` | pyblazeb2/pyblazeb2.py:277 | the scan answers exactly Python's substring test |
| `FileListing.FileIdByName` | pyblazeb2/pyblazeb2.py:274-279 | the id returned belongs to the first listed file whose name contains the requested name; `None` exactly when no name contains it |
| `FileListing.EmptyNameSelectsFirstFile` | pyblazeb2/pyblazeb2.py:276-278 | an empty requested name selects the first listed file |
| `DestinationName.StripLeadingSlash` | pyblazeb2/pyblazeb2.py:173 | the name loses at most one character, a leading slash, and loses it exactly when there is one |
| `DestinationName.CollapseSlashes` | pyblazeb2/pyblazeb2.py:174 | the substitution never lengthens the name and strictly shortens every name that contains a doubled slash |
| `DestinationName.CollapseSlashRun` | pyblazeb2/pyblazeb2.py:174 | a maximal run of k slashes at the front becomes a run of k/2 slashes rounded up, and the text after it is collapsed on its own |
| `DestinationName.CollapseNonSlash` | pyblazeb2/pyblazeb2.py:174 | a character other than a slash is kept and the rest is collapsed on its own; with `CollapseSlashRun` and the empty name this fixes the single left-to-right pass over non-overlapping pairs on every name, runs after other text included |
| `DestinationName.CollapseKeepsContent` | pyblazeb2/pyblazeb2.py:174 | collapsing slashes keeps every other character in order, never lengthens the name, empties only the empty name, and keeps a leading slash exactly when there was one |
| `DestinationName.CollapseWithoutDoubleSlash` | pyblazeb2/pyblazeb2.py:174 | a name without a doubled slash is unchanged |
| `DestinationName.CollapseIsNotIdempotent` | pyblazeb2/pyblazeb2.py:174 | one substitution pass turns three slashes into two, so a second pass would change the name again |
| `DestinationName.Basename` | pyblazeb2/pyblazeb2.py:201-202 | the base name is the slash-free tail of the path, preceded by a slash when it is not the whole path |
| `DestinationName.NormalizedName` | pyblazeb2/pyblazeb2.py:169-202 | for a mapped file a given non-trivial name is stripped and collapsed, is non-empty and no longer than given; for a file that could not be mapped a given non-empty name is kept as is; no name, or one that ends up empty, gives the local base name; the non-slash characters are always those of the given name or of the base name |
| `DestinationName.EmptyFileKeepsGivenName` | pyblazeb2/pyblazeb2.py:170-176 | `/a//b` becomes `a/b` for a mapped file and stays `/a//b` for an empty one |
| `DestinationName.LeadingSlashSurvives` | pyblazeb2/pyblazeb2.py:173-174 | for a mapped file the stored name starts with a slash exactly when the given name started with two |
| `Utf8.EncodeChar` | pyblazeb2/pyblazeb2.py:48 | one to four bytes per character; a single byte exactly for ASCII, equal to the code point; multi-byte forms contain no ASCII byte |
| `Utf8.DecodeEncode` | pyblazeb2/pyblazeb2.py:48 | strict UTF-8 decoding gives back every encoded string |
| `PercentEncoding.EncodeBytesRoundTrip` | pyblazeb2/pyblazeb2.py:207 | the encoding is well-formed and percent-decoding restores the bytes |
| `PercentEncoding.WellFormedAlphabet` | pyblazeb2/pyblazeb2.py:207 | well-formed output uses only unreserved characters and `%`, so no slash or space |
| `PercentEncoding.QuoteRoundTrip` | pyblazeb2/pyblazeb2.py:207 | the quoted name has no slash or space and decodes to the UTF-8 bytes of the name, which decode to the name |
| `PercentEncoding.QuoteChar` | pyblazeb2/pyblazeb2.py:207 | a character is kept exactly when it is unreserved, otherwise it takes at least three characters |
| `PercentEncoding.QuoteIdentity` | pyblazeb2/pyblazeb2.py:207 | a name is unchanged by quoting exactly when all its characters are unreserved, and quoting never shortens |
| `Base64.Encode` | pyblazeb2/pyblazeb2.py:49 | the output uses only the base64 alphabet and `=` |
| `Base64.EncodeLength` | pyblazeb2/pyblazeb2.py:49 | every started group of three bytes becomes four characters |
| `Base64.DecodeEncode` | pyblazeb2/pyblazeb2.py:49 | decoding restores every encoded byte sequence |
| `Credentials.BasicAuthorization` | pyblazeb2/pyblazeb2.py:47-49 | the header is `Basic ` followed by base64 text |
| `Credentials.BasicAuthorizationRoundTrip` | pyblazeb2/pyblazeb2.py:47-50 | a receiver splitting the decoded header at the first colon recovers account id and application key, when the account id has no colon |
| `UploadFile.EncodedFileName` | pyblazeb2/pyblazeb2.py:200-207 | the file-name header is well-formed, free of slashes and spaces, and decodes to the UTF-8 bytes of the normalised name |
| `UploadFile.ChooseUploadTarget` | pyblazeb2/pyblazeb2.py:190-198 | a worker's non-empty URL is used with its token; otherwise the URL and token fetched for the resolved bucket (the given id, or a bucket with the given name), failing exactly when the bucket does not resolve |
| `UploadFile.UploadFileRequest` | pyblazeb2/pyblazeb2.py:167-217 | the request carries the chosen URL and token, the size, the digest, the automatic content type, and a file name decoding to the destination name, normalised exactly when the file is not empty |
| `RecursiveUpload.AdmittedMembers` | pyblazeb2/pyblazeb2.py:391-397 | the admitted paths are walk paths passing the directory rule (no symlink, no exclude match, include match when an include pattern is set), and every walk path passing it is admitted |
| `RecursiveUpload.WalkDirectory` | pyblazeb2/pyblazeb2.py:391-405 | multithreaded, every admitted path is queued in walk order and counted; sequential, the run succeeds exactly when every admitted upload does, otherwise it fails at the first failing admitted path |
| `RecursiveUpload.QueueWalkAsWritten` | pyblazeb2/pyblazeb2.py:391-405 | with the tuple in place of the queue, the multithreaded branch succeeds, with count 0, exactly when the walk admits nothing, and otherwise fails on an admitted path |
| `RecursiveUpload.QueueFailsOnFirstAdmittedFile` | pyblazeb2/pyblazeb2.py:42 | one admitted file is enough for the multithreaded branch to raise |
| `RecursiveUpload.SinglePathCounter` | pyblazeb2/pyblazeb2.py:412-418 | the counter stays in 0..2 and is positive exactly when the path is a symlink, the exclude pattern does not match, or the include pattern matches |
| `RecursiveUpload.SinglePath` | pyblazeb2/pyblazeb2.py:411-425 | when the counter rule takes the path, the call succeeds with count 1 exactly when its upload succeeds and otherwise fails with that path's upload error; when the rule skips the path, it succeeds with count 0 and nothing taken |
| `RecursiveUpload.SymlinkRulesDiffer` | pyblazeb2/pyblazeb2.py:393-418 | a symlink is skipped inside a directory but uploaded as a single path |
| `RecursiveUpload.IncludeRulesDiffer` | pyblazeb2/pyblazeb2.py:396-418 | a non-matching include pattern blocks a file inside a directory but not a single path that is not excluded |
| `RecursiveUpload.RecursiveUpload` | pyblazeb2/pyblazeb2.py:368-425 | no bucket reference is an error; a directory takes the admitted paths and counts them, succeeding when multithreaded and, when sequential, exactly when every admitted upload succeeds, failing at the first that does not; a single path follows the counter rule; the count always equals the number of paths taken |
| `UploadWorker.RetryFrom` | pyblazeb2/pyblazeb2.py:354-366 | the remaining attempts stop at the first success; the path is uploaded exactly when one of the remaining attempts succeeds, otherwise all four are spent |
| `UploadWorker.Retry` | pyblazeb2/pyblazeb2.py:354-366 | one to four attempts; uploaded exactly when one of the first four succeeds; the last attempt made is the first success; a failure spends all four and is not reported |
| `UploadWorker.FourthAttemptCounts` | pyblazeb2/pyblazeb2.py:354-361 | three failures followed by a success still upload, after four attempts |
| `UploadWorker.Drain` | pyblazeb2/pyblazeb2.py:347-366 | every dequeued path gets its own retry loop, a failure does not stop the worker, and the attempts total between one and four per path |
| `Downloads.DownloadWithAuthorizedUrl` | pyblazeb2/pyblazeb2.py:286-294 | refuses exactly when the destination exists without force; otherwise a plain GET of the given URL without credentials |
| `Downloads.FileByNameUrlRoundTrip` | pyblazeb2/pyblazeb2.py:310-311 | the by-name URL gives back bucket name and file name when the bucket name has no slash |
| `Downloads.DownloadByName` | pyblazeb2/pyblazeb2.py:299-319 | the overwrite guard comes before anything else; past it, a refused authorization fails first, then a missing reference; the call succeeds exactly when authorization succeeds and the bucket resolves, and the request uses the re-authorized session's token and a URL naming a listed bucket that carries the given id, or else the given name |
| `Downloads.FileByIdUrlRoundTrip` | pyblazeb2/pyblazeb2.py:330 | the by-id URL gives back the file id |
| `Downloads.DownloadById` | pyblazeb2/pyblazeb2.py:323-333 | the overwrite guard comes first; past it the call succeeds exactly when authorization does, and the URL gives back the file id |
| `Downloads.AuthorizedUrlRoundTrip` | pyblazeb2/pyblazeb2.py:107-110 | the authorized URL gives back bucket name, granted prefix and token when the name has no slash and the token no question mark |
| `Downloads.DownloadAuthorization` | pyblazeb2/pyblazeb2.py:92-112 | succeeds exactly when authorization does; the request carries bucket id, prefix and the client's validity duration; the URL gives back bucket name and the service's prefix and token |

## Left out

- HTTP and JSON: every request is returned as data, and every answer of the service is an input (`reply`, the bucket listing, the file listing, the download-authorization reply, `issue` for upload URLs). An HTTP error of the authorize-account call is `AuthorizationRejected`; HTTP errors of other calls are not modelled.
- The clock: `time.time()` is a float read twice per re-authorization; the model reads one whole-second `now` for both the test and the stamp.
- Authorization inside the bucket, listing and upload operations: `Buckets.GetBucketInfo`, `Buckets.DeleteBucketId`, `Buckets.UpdateBucketRequest`, `FileListing.ListFileNamesRequest`, `UploadFile.ChooseUploadTarget`, `UploadFile.UploadFileRequest` and `RecursiveUpload.RecursiveUpload` take the bucket listing as already fetched and leave out the staleness test, the re-authorization, its `AuthorizationRejected` failure and the session update that the source runs before them (lines 115, 148, 156, 167 and 428). Only the `Downloads` members compose the lookup with `Session.EnsureAuthorized`, and they run the test once where the source runs it several times (directly, inside `list_buckets`, inside `_api_request`).
- The plain request wrappers `create_bucket`, `list_buckets`, `get_upload_url`, `delete_file_version`, `get_file_info` and `_api_request`: they only assemble a request body; `get_upload_url`'s bucket resolution is `Buckets.ResolveBucketId`.
- The file system: `os.path.exists`, `os.walk`, `os.path.isdir`, `os.path.islink`, `os.path.getsize`, `open`, `mmap` and `write_file` are replaced by inputs (`destinationExists`, `walk`, `isDir`, `isLink`, `size`).
- The SHA-1 digest of the uploaded file is an opaque input string.
- Regular expressions are the abstract predicate `matches(pattern, path)`. `re.compile` with the default `flags=None` raises in CPython; the model assumes the patterns compiled.
- Threads: starting the workers, the done flag, polling with `sleep`, `join`, how paths are shared among workers, and each worker's own `get_upload_url` call. `UploadWorker.Drain` is one worker over the paths it dequeues, with each attempt's outcome as an input.
- The exception swallowed at lines 176-177: its effect on the name is modelled (a missing name falls back to the base name; an empty file, which cannot be memory-mapped, keeps its given name unnormalised). A file that cannot be opened fails later at line 182 anyway.
- DestinationName.NormalizedName: only an empty file counts as unmappable; other reasons the memory map at line 172 can fail (special files, resource limits) are not modelled.
- Printing to the console.
- Python versions before 3.7 quote `~`; the model follows 3.7 and later, where `~` is unreserved (section 2.3 of RFC 3986).
- Lone surrogates: Dafny's `char` cannot hold one, and Python's `encode()` raises on one.
- Download URLs are not percent-encoded by the source; the round-trip lemmas require a bucket name without `/` (and a token without `?`) for that reason.
- A bucket name of `None` in `get_download_authorization` would be formatted as the text `None`; the model takes the bucket name as a string.
- Timeout values are only chosen, not applied.
- `RecursiveUpload.RecursiveUpload`: the bucket lookup's answer is unused by the source, so a bucket that does not exist is not detected here; only a missing reference is an error.

## Findings

| source | as written | input that shows it | evidently intended | confidence | as-written member | corrected member |
|---|---|---|---|---|---|---|
| pyblazeb2/pyblazeb2.py:41 | a trailing comma stores the token lifetime as the tuple `(7200,)`, and line 71 compares the token's age, a float, with it, which raises TypeError | a new client's first `list_buckets` call: the test at line 115 authorizes and stamps, and the test `_api_request` runs at line 428 then raises; every later call raises at its first test (`Session.AsWrittenTestFailsAfterFirstAuthorization`) | the lifetime is the number, and a token older than it is refreshed | high, not executed | `Session.NeedsReauthAsWritten` | `Session.FreshForExactlyTheLifetime` |
| pyblazeb2/pyblazeb2.py:42 | a trailing comma replaces the queue built on line 38 by the tuple `(None,)`, which has no `put`, so line 400 raises AttributeError and the started workers keep polling | a multithreaded upload of a directory with one admitted file (`RecursiveUpload.QueueFailsOnFirstAdmittedFile`); the bug is latent while the line-41 bug stands, because the bucket lookup at line 372 raises first, and a given pattern with the default `flags=None` raises at lines 375-377 before the walk too | every admitted path is queued and counted | high, not executed | `RecursiveUpload.QueueWalkAsWritten` | `RecursiveUpload.WalkDirectory` |
