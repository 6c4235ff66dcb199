/**
 The batch driver, `uploadMultipleFiles`: the descriptors are uploaded one
 after the other in list order, and the first rejection ends the batch
 with that error.

 The driver's reasoning is stated over any per-file transfer `upload`; the
 uploader's own is `UploadIn(env, md5)`.
 */
module Batch {
  import opened Outcomes
  import opened Seqs
  import opened Selection
  import opened Transfer

  /** How a batch ended, how many files it attempted, and the bucket after it. */
  datatype Run = Run(result: Result<()>, attempted: nat, store: Store)

  /** One file's transfer as the driver sees it: a bucket and a descriptor in, a step out. */
  type Upload = (Store, Descriptor) -> Step

  /** `this.uploadFile` in a given environment. */
  function UploadIn(env: Env, md5: Fingerprint): Upload {
    (store: Store, d: Descriptor) => UploadFile(store, env, md5, d)
  }

  /** The batch from file `i` on, with the bucket as the earlier files left it. */
  function RunFrom(files: seq<Descriptor>, i: nat, store: Store, upload: Upload): (b: Run)
    requires i <= |files|
    ensures i <= b.attempted <= |files|
    ensures b.result.Ok? ==> b.attempted == |files|
    decreases |files| - i
  {
    if i == |files| then Run(Ok(()), i, store)
    else
      var step := upload(store, files[i]);
      if step.outcome.Err? then Run(Err(step.outcome.error), i + 1, step.store)
      else RunFrom(files, i + 1, step.store, upload)
  }

  /** The bucket after the first `k` files were each uploaded once, in order. */
  function StoreAfter(files: seq<Descriptor>, store: Store, upload: Upload, k: nat): Store
    requires k <= |files|
  {
    if k == 0 then store
    else upload(StoreAfter(files, store, upload, k - 1), files[k - 1]).store
  }

  /** The outcome of uploading file `k` after the files before it. */
  function OutcomeOf(files: seq<Descriptor>, store: Store, upload: Upload, k: nat): Result<Action>
    requires k < |files|
  {
    upload(StoreAfter(files, store, upload, k), files[k]).outcome
  }

  /**
   From file `i` on, the batch uploads the files in order, each after the
   ones before it, and stops at the first that fails: when it fails, every
   file before the failing one succeeded and the failing one's error is the
   batch's.
   */
  lemma {:induction false} RunFromSpec(files: seq<Descriptor>, store: Store, upload: Upload, i: nat)
    requires i <= |files|
    ensures var b := RunFrom(files, i, StoreAfter(files, store, upload, i), upload);
      && b.store == StoreAfter(files, store, upload, b.attempted)
      && (b.result.Ok? ==> forall k :: i <= k < |files| ==> OutcomeOf(files, store, upload, k).Ok?)
      && (b.result.Err? ==>
            && i < b.attempted
            && OutcomeOf(files, store, upload, b.attempted - 1) == Err(b.result.error)
            && forall k :: i <= k < b.attempted - 1 ==> OutcomeOf(files, store, upload, k).Ok?)
    decreases |files| - i
  {
    if i < |files| {
      var step := upload(StoreAfter(files, store, upload, i), files[i]);
      assert StoreAfter(files, store, upload, i + 1) == step.store;
      if step.outcome.Ok? {
        RunFromSpec(files, store, upload, i + 1);
      }
    }
  }

  /**
   The batch from the start: if it succeeds, every file was attempted and
   succeeded; if file `k` fails, the files before it succeeded, the files
   after it were never attempted, and the batch fails with file `k`'s error.
   */
  lemma FirstFailureStops(files: seq<Descriptor>, store: Store, upload: Upload)
    ensures var b := RunFrom(files, 0, store, upload);
      && b.store == StoreAfter(files, store, upload, b.attempted)
      && (b.result.Ok? <==> forall k :: 0 <= k < |files| ==> OutcomeOf(files, store, upload, k).Ok?)
      && (b.result.Err? ==>
            && 0 < b.attempted
            && OutcomeOf(files, store, upload, b.attempted - 1) == Err(b.result.error)
            && forall k :: 0 <= k < b.attempted - 1 ==> OutcomeOf(files, store, upload, k).Ok?)
  {
    RunFromSpec(files, store, upload, 0);
  }

  /** The indices `0 .. n - 1`, in order. */
  function Indices(n: nat): (r: seq<nat>)
    ensures |r| == n && forall k :: 0 <= k < n ==> r[k] == k
  {
    seq(n, k => k)
  }

  lemma IndicesSnoc(n: nat)
    ensures Indices(n + 1) == Indices(n) + [n]
  {
  }

  /**
   `uploadMultipleFiles`: `attempted` lists the indices of the files whose
   upload was started, in the order they were started.
   */
  method UploadMultipleFiles(files: seq<Descriptor>, store: Store, env: Env, md5: Fingerprint)
    returns (r: Result<()>, attempted: seq<nat>, final: Store)
    ensures var b := RunFrom(files, 0, store, UploadIn(env, md5));
      r == b.result && final == b.store && attempted == Indices(b.attempted)
    ensures r.Ok? ==> attempted == Indices(|files|)
  {
    var upload := UploadIn(env, md5);
    var current := store;
    attempted := [];
    var i := 0;
    while i < |files|
      invariant i <= |files|
      invariant RunFrom(files, i, current, upload) == RunFrom(files, 0, store, upload)
      invariant attempted == Indices(i)
    {
      IndicesSnoc(i);
      attempted := attempted + [i];
      var step := upload(current, files[i]);
      if step.outcome.Err? {
        return Err(step.outcome.error), attempted, step.store;
      }
      current := step.store;
      i := i + 1;
    }
    return Ok(()), attempted, current;
  }

  /**
   When the uploader's batch fails at file `k`, the bucket is as the files
   before `k` left it: the failing file wrote nothing.
   */
  lemma FailedBatchKeepsEarlierUploads(files: seq<Descriptor>, store: Store, env: Env, md5: Fingerprint)
    ensures var b := RunFrom(files, 0, store, UploadIn(env, md5));
      b.result.Err? ==> b.store == StoreAfter(files, store, UploadIn(env, md5), b.attempted - 1)
  {
    var upload := UploadIn(env, md5);
    var b := RunFrom(files, 0, store, upload);
    FirstFailureStops(files, store, upload);
    if b.result.Err? {
      var k := b.attempted - 1;
      var before := StoreAfter(files, store, upload, k);
      assert StoreAfter(files, store, upload, k + 1) == UploadFile(before, env, md5, files[k]).store;
    }
  }

  /**
   A bucket in which every file of the batch is already up to date is left
   as it is by the batch: every file is skipped. A skip never opens a write
   stream or reads the file beyond its digest, so only the metadata request
   has to succeed.
   */
  lemma {:induction false} UpToDateBatchSkips(files: seq<Descriptor>, store: Store, env: Env, md5: Fingerprint, i: nat)
    requires i <= |files|
    requires forall d :: d in files ==> env.fetchFault(d.destination).None? && UpToDate(store, env, md5, d)
    ensures RunFrom(files, i, store, UploadIn(env, md5)) == Run(Ok(()), |files|, store)
    ensures forall k :: i <= k < |files| ==> UploadFile(store, env, md5, files[k]) == Step(Ok(Skipped), store)
    decreases |files| - i
  {
    forall k | i <= k < |files| ensures UploadFile(store, env, md5, files[k]) == Step(Ok(Skipped), store) {
      assert files[k] in files;
    }
    if i < |files| {
      UpToDateBatchSkips(files, store, env, md5, i + 1);
    }
  }

  /**
   With nothing failing and distinct destination keys, after the first `k`
   uploads every one of those files is up to date in the bucket.
   */
  lemma {:induction false} HealthyPrefixUpToDate(files: seq<Descriptor>, store: Store, env: Env, md5: Fingerprint, k: nat)
    requires k <= |files|
    requires forall d :: d in files ==> Healthy(env, d)
    requires Distinct(Destinations(files))
    ensures forall j :: 0 <= j < k ==> UpToDate(StoreAfter(files, store, UploadIn(env, md5), k), env, md5, files[j])
  {
    if k > 0 {
      var upload := UploadIn(env, md5);
      HealthyPrefixUpToDate(files, store, env, md5, k - 1);
      var before := StoreAfter(files, store, upload, k - 1);
      assert StoreAfter(files, store, upload, k) == UploadFile(before, env, md5, files[k - 1]).store;
      assert files[k - 1] in files;
      HealthyUpload(before, env, md5, files[k - 1]);
      forall j | 0 <= j < k - 1 ensures UpToDate(StoreAfter(files, store, upload, k), env, md5, files[j]) {
        assert Destinations(files)[j] != Destinations(files)[k - 1];
      }
    }
  }

  /** With nothing failing, every upload of the batch succeeds. */
  lemma HealthyBatchSucceeds(files: seq<Descriptor>, store: Store, env: Env, md5: Fingerprint)
    requires forall d :: d in files ==> Healthy(env, d)
    ensures RunFrom(files, 0, store, UploadIn(env, md5)).result.Ok?
  {
    var upload := UploadIn(env, md5);
    FirstFailureStops(files, store, upload);
    forall k | 0 <= k < |files| ensures OutcomeOf(files, store, upload, k).Ok? {
      assert files[k] in files;
      HealthyUpload(StoreAfter(files, store, upload, k), env, md5, files[k]);
    }
  }

  /**
   Idempotence of a batch: after a batch of files with distinct keys ran
   with nothing failing, running any batch of those same files again (in
   any order) skips every file and leaves the bucket unchanged.
   */
  lemma BatchIdempotent(files: seq<Descriptor>, again: seq<Descriptor>, store: Store, env: Env, md5: Fingerprint)
    requires forall d :: d in files ==> Healthy(env, d)
    requires Distinct(Destinations(files))
    requires forall d :: d in again ==> d in files
    ensures var first := RunFrom(files, 0, store, UploadIn(env, md5));
      && first.result.Ok?
      && RunFrom(again, 0, first.store, UploadIn(env, md5)) == Run(Ok(()), |again|, first.store)
  {
    var upload := UploadIn(env, md5);
    var first := RunFrom(files, 0, store, upload);
    HealthyBatchSucceeds(files, store, env, md5);
    FirstFailureStops(files, store, upload);
    HealthyPrefixUpToDate(files, store, env, md5, |files|);
    forall d | d in again ensures Healthy(env, d) && UpToDate(first.store, env, md5, d) {
      var j :| 0 <= j < |files| && files[j] == d;
    }
    UpToDateBatchSkips(again, first.store, env, md5, 0);
  }
}
