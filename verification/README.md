# gcs-bulk-upload, modelled in Dafny

The `Uploader` class copies a local directory tree into a Google Cloud
Storage bucket. It lists the files under an origin directory, shuffles the
list, drops paths that match a disallow glob, keeps only paths that match
an allow glob (when there are any), and maps each survivor to a destination
key. It then uploads the files one at a time. A file is skipped when the
bucket already holds an object under its key whose `md5Hash` equals the
base64 MD5 of the local bytes. A 404 from the metadata request means "not
there yet". Any other error ends the whole batch.

The model covers that decision logic:

- `shuffle.dfy` (module `Shuffle`): `_shuffleArray`, the in-place
  Fisher–Yates loop over an `array`. It is proved against the function
  `ShuffleDown`, and the result is proved to be a permutation.
- `selection.dfy` (module `Selection`): the filter, filter and map chain of
  `getFiles`, and `getFiles` itself. `GetFiles` is a method that shuffles an
  array copy of the listing, as the source does before filtering.
- `transfer.dfy` (module `Transfer`): `fileExists` as a decision over
  `Result` values, and `uploadFile` as a function from the bucket to an
  outcome and a new bucket.
- `batch.dfy` (module `Batch`): `uploadMultipleFiles` as a loop that
  returns the indices it attempted. It is proved against the function `RunFrom`, stated
  over any per-file transfer.
- `uploader.dfy` (module `Uploader`): `upload`, and the end-to-end
  idempotence theorem.
- `outcomes.dfy` and `seqs.dfy`: the `Result`/`Option`/`Error` types, and
  JavaScript's `Array.prototype.filter` with its lemmas.

Collaborators are parameters:

- The glob matcher (`minimatch`) is `matches: (string, string) -> bool`.
- The digest (MD5, then base64) is `md5: seq<bv8> -> string`.
- `Math.random()` is a stream `draws: nat -> Draw` of reals in [0, 1).
- The directory listing is an input `Result<seq<string>>`.
- The bucket is a `map` from keys to objects.
- The outside world is an `Env`. It gives what reading a local file yields
  and the faults the storage service reports for a key.
- The bucket is assumed to record `md5(data)` as the `md5Hash` of every
  object written through it, as Cloud Storage does.

Two behaviours of the code that the model keeps:

- The listing is shuffled before it is filtered (index.js:95).
  `ShuffleThenFilter` proves that this selects the same multiset of files as
  filtering the unshuffled listing.
- Visibility is hard-coded to `public: true` (index.js:68). The configured
  `public` flag is never read.

## Model

| member | source | states |
|---|---|---|
| `Shuffle.RandomIndex` | index.js:26 | `Math.floor(r * (i + 1))` with `0 <= r < 1` is an index `j` with `0 <= j <= i`, so every swap stays in bounds |
| `Shuffle.FromDrawsBounded` | index.js:26 | the index source built from any stream of `Math.random()` results only selects cells that exist |
| `Shuffle.Swap` | index.js:27 | the destructuring swap exchanges cells `i` and `j` and leaves every other cell alone |
| `Shuffle.SwapCells` | index.js:27 | the swap done in place on the array leaves it as `Swap` of its old contents |
| `Shuffle.ShuffleDown` | index.js:24-29 | the shuffle from position `i` down keeps the length of the sequence |
| `Shuffle.ShuffleDownPermutes` | index.js:24-29 | each pass of the descending loop is a permutation (same multiset); cells above `i` are final; with `i <= 0` nothing moves |
| `Shuffle.Shuffled` | index.js:24-29 | what `_shuffleArray` makes of a listing has its length, and a listing of length 0 or 1 is left as it is, because the loop guard is `i > 0` |
| `Shuffle.ShuffledPermutes` | index.js:24-29 | the shuffled listing is a permutation of the listing; a listing of length 0 or 1 is unchanged, because the loop guard is `i > 0` |
| `Shuffle.ShuffleArray` | index.js:24-29 | the in-place loop leaves the array as `Shuffled` of its old contents: same length, same multiset, untouched when its length is at most 1 |
| `Selection.PassesDisallow` | index.js:97-99 | `disallow.length ? !<count of matching patterns> : true` keeps a path exactly when no disallow pattern matches it |
| `Selection.PassesAllow` | index.js:100-102 | `allow.length ? <count of matching patterns> : true`, the count taken as a truth value, keeps a path exactly when there are no allow patterns or one of them matches |
| `Selection.PassesIffAdmitted` | index.js:97-102 | the count-based `filter(...).length` tests keep a path exactly when no disallow pattern matches it and either there are no allow patterns or one matches |
| `Selection.DisallowWins` | index.js:97-99 | a path matching any disallow pattern is not selected, even when an allow pattern matches it too |
| `Selection.EmptyFiltersSelectAll` | index.js:97-102 | with empty `allow` and `disallow`, every listed path is selected in listing order, so as many descriptors as listed paths |
| `Selection.SelectFiles` | index.js:96-105 | the filter, filter and map chain returns at most as many descriptors as listed paths, each describing a listed path that the filter rule admits |
| `Selection.SelectFilesSpec` | index.js:96-105 | the descriptors' origins are the listing filtered by the filter rule, in order, and each descriptor is `{ origin: item, destination: join(destination, relative(origin, item)) }` |
| `Selection.SelectedIffAdmitted` | index.js:96-102 | a path is selected if and only if it is listed and the filter rule admits it |
| `Selection.SelectionIsSubsequence` | index.js:96-102 | the selected origins are an order-preserving subsequence of the (shuffled) listing |
| `Selection.Describe` | index.js:102-105 | each descriptor's `origin` is exactly the listed path |
| `Selection.DestinationMirrorsTree` | index.js:104 | with a non-empty destination, a file at `origin/rel` goes to the key `destination/rel` |
| `Selection.DescribeInjective` | index.js:104 | two different files below the origin get different destination keys |
| `Selection.Selected` | index.js:94-105 | what `getFiles` selects after its shuffle: at most as many descriptors as listed paths, each `{ origin, destination }` for a listed path the filter rule admits |
| `Selection.ShuffleThenFilter` | index.js:94-102 | shuffling before filtering selects the same files, each as often, as filtering the unshuffled listing |
| `Selection.DistinctDestinations` | index.js:94-105 | a listing of distinct files below the origin yields distinct destination keys, whatever the draws |
| `Selection.GetFiles` | index.js:92-109 | a listing error is rethrown unchanged; otherwise the result is the filter and map chain applied to the in-place shuffled listing |
| `Transfer.CheckExists` | index.js:58-59 | `fileExists` for a descriptor's key: when the metadata request itself does not fail, `false` for a key not in the bucket; `true` exactly when the metadata request does not fail and the bucket holds the local file's digest under the key; an error only from a failed metadata request, or from a failed read of a file whose key exists |
| `Transfer.FileExists` | index.js:45-54 | a 404 gives `false` whatever the local file; `true` exactly when `metadata[0].md5Hash === hash`, without normalisation; every other error is rethrown unchanged, the metadata error before the hash error |
| `Transfer.UploadFile` | index.js:56-79 | skips exactly when the check resolved `true`; writes exactly when it resolved `false` and reading and writing succeed; a rejected check rejects with its error and writes nothing; a failed read or write rejects with that stream's error and writes nothing; only the destination key can change |
| `Transfer.HealthyUpload` | index.js:56-79 | with no fault, the transfer succeeds, leaves the object up to date, and skips exactly when it already was |
| `Transfer.UploadTwiceWritesOnce` | index.js:56-79 | with no fault, uploading an unchanged file a second time is a skip that leaves the bucket unchanged |
| `Transfer.UploadFileAsWritten` | index.js:56-79 | the code as written never settles exactly when the check resolved `false` and the read fails, because no listener hears the read stream's error; it skips and writes under the same conditions as `UploadFile` |
| `Transfer.AsWrittenAgreesWhenSettled` | index.js:59-77 | wherever the code as written settles, it settles as `UploadFile` does; where it does not, `UploadFile` rejects with the read error and writes nothing |
| `Transfer.UnreadableNewFileNeverSettles` | index.js:59-77 | an unreadable local file with no remote copy, whose metadata request answers 404, makes the code as written never settle, while `UploadFile` rejects with the read error; with a remote copy, even the code as written rejects |
| `Batch.RunFrom` | index.js:81-90 | the batch from file `i` attempts between `i` and all of the files, and succeeds only after attempting all of them |
| `Batch.RunFromSpec` | index.js:83-88 | from file `i` on, files are uploaded in index order, each after the previous ones; on failure, every earlier file succeeded and the failing file's error is the batch's |
| `Batch.FirstFailureStops` | index.js:83-88 | the batch succeeds if and only if every file succeeds; if file `k` fails, files `k+1..n-1` are never attempted and that same error is thrown |
| `Batch.UploadMultipleFiles` | index.js:81-90 | the loop returns `RunFrom`'s result and bucket; its attempted indices are `0..k` in order, and all of `0..n-1`, each once, when no file fails |
| `Batch.FailedBatchKeepsEarlierUploads` | index.js:83-88 | after a failure at file `k`, the bucket is as the files before `k` left it |
| `Batch.UpToDateBatchSkips` | index.js:81-90 | a batch whose files are all up to date, with metadata requests that succeed, skips every file and leaves the bucket unchanged; a skip does not depend on whether a write would fail |
| `Batch.HealthyPrefixUpToDate` | index.js:81-90 | with no fault and distinct keys, each file uploaded so far is up to date in the bucket |
| `Batch.HealthyBatchSucceeds` | index.js:81-90 | with no fault, the batch completes |
| `Batch.BatchIdempotent` | index.js:81-90 | after a batch with no fault and distinct destination keys, running any batch of the same files again, in any order, skips them all and changes nothing |
| `Uploader.Upload` | index.js:111-124 | a listing error is rethrown with nothing attempted; otherwise the result, the attempted indices and the bucket are those of the batch over `getFiles`' selection |
| `Uploader.SameSelection` | index.js:94-105 | whatever the draws, the same descriptors are selected, each as often (the same multiset), only in another order |
| `Uploader.UploadIsIdempotent` | index.js:111-124 | two runs of `upload` over an unchanged listing of distinct files below the origin, with no fault: the first succeeds, and the second skips every file and leaves the bucket unchanged, whatever its shuffle |

## Findings

| source | as written | input that shows it | evidently intended | confidence | as-written member | corrected member |
|---|---|---|---|---|---|---|
| index.js:66-74 | the `'error'` listener is on the write stream that `pipe` returns. `pipe` does not forward read-stream errors, so a failed read reaches no listener: it surfaces as an uncaught exception, and the promise of `uploadFile` never settles | a local file without read permission and no object under its key: the metadata request gives 404, so the file is never hashed, and the read for the upload fails | reject with the read error, as happens for the same file when an object exists under its key (the hash read fails first) | medium, not executed | `Transfer.UploadFileAsWritten` (shown by `Transfer.UnreadableNewFileNeverSettles`) | `Transfer.UploadFile` (proved by `Transfer.AsWrittenAgreesWhenSettled`) |

## Left out

- Streaming, MD5 and base64 (index.js:31-39): the digest is the abstract
  parameter `md5`. Reading a file is one `Result` per path, and reads are
  taken to be deterministic. A file that changes between hashing and
  uploading is not modelled.
- The Cloud Storage client (index.js:18-21, 47, 58, 67-72): replaced by the
  `Store` map and the fault functions of `Env`. A failed upload is taken to
  leave the object as it was.
- Content type (`mime-types`, index.js:65) and visibility (index.js:68) are
  not recorded on stored objects. Visibility is always `public: true` in the
  code, and `config.public` is never read.
- `recursive-readdir` (index.js:94): the listing is an input. That it lists
  distinct regular files below the origin is a hypothesis of
  `DistinctDestinations` and `UploadIsIdempotent`.
- `minimatch` glob semantics (index.js:98, 101): `matches` is uninterpreted.
- `path.join` and `path.relative` (index.js:104): the model strips the
  prefix `origin + "/"` and joins with one `/`. It does no normalisation of
  `.`, `..`, repeated or trailing separators. For a path not below the
  origin, Node would produce `../…`; the model keeps the path unchanged.
- `Math.random` (index.js:26): a stream of reals in [0, 1). Floating-point
  rounding is not modelled, and nothing is said about the distribution.
- Debug logging (index.js:41-43, 62, 84): the batch's `attempted` sequence
  records the files whose upload started. This is the information the
  "Uploading file i of N" lines carry.
- Promises and the catch-and-rethrow wrappers (index.js:87-88, 106-107,
  121-122): rethrowing unchanged is the identity on `Result`. Concurrency
  does not arise because the batch is sequential.
- UploadMultipleFiles: the batch runs the corrected transfer `UploadFile`,
  not `UploadFileAsWritten`. For an unreadable local file with no remote
  copy, the model's batch fails with the read error, while the code as
  written never settles. `BatchIdempotent` and the other batch lemmas
  describe the corrected batch.
- Upload: runs the corrected batch too, so the same case ends in the read
  error instead of never settling. `UploadIsIdempotent` describes the
  corrected uploader.
- GetMetadata, HashFile and Stored stand in for the Cloud Storage client and
  for streaming and MD5. Their contracts only describe those stand-ins. What
  the uploader does with their results is stated by `CheckExists`,
  `FileExists` and `UploadFile`.
- Storage credentials and the bucket name (index.js:12-21): not modelled.
