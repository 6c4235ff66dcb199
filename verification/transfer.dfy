/**
 The up-to-date check (`fileExists`) and the per-file transfer
 (`uploadFile`).

 The bucket is a map from keys to stored objects. The outside world enters
 through an `Env`: what reading a local file yields, and the faults the
 storage service may report for a key. The MD5-then-base64 digest is the
 parameter `md5`; the store is taken to record `md5(data)` as the
 `md5Hash` of every object written through it, as the storage service does.
 */
module Transfer {
  import opened Outcomes
  import opened Selection

  type Bytes = seq<bv8>

  /** The digest the uploader compares: base64 of the MD5 of a file's bytes. */
  type Fingerprint = Bytes -> string

  /** An object in the bucket; objects assembled from parts carry no `md5Hash`. */
  datatype RemoteObject = RemoteObject(data: Bytes, md5Hash: Option<string>)

  type Store = map<string, RemoteObject>

  /** The part of `(await file.getMetadata())[0]` the uploader reads. */
  datatype Metadata = Metadata(md5Hash: Option<string>)

  datatype Env = Env(
    read: string -> Result<Bytes>,         // what streaming a local file yields
    fetchFault: string -> Option<Error>,   // a metadata request that fails for its own reasons
    writeFault: string -> Option<Error>)   // an upload stream that emits 'error'

  /** `file.getMetadata()` for the object under `key`. */
  function GetMetadata(store: Store, env: Env, key: string): (r: Result<Metadata>)
    ensures r.Ok? <==> env.fetchFault(key).None? && key in store
    ensures r.Ok? ==> r.value.md5Hash == store[key].md5Hash
    ensures env.fetchFault(key).None? && key !in store ==> r == Err(NotFound)
  {
    match env.fetchFault(key)
    case Some(e) => Err(e)
    case None => if key in store then Ok(Metadata(store[key].md5Hash)) else Err(NotFound)
  }

  /** `_hashFile(origin)`: the digest of the file's bytes, or the read error. */
  function HashFile(env: Env, md5: Fingerprint, origin: string): (r: Result<string>)
    ensures r.Ok? <==> env.read(origin).Ok?
    ensures r.Ok? ==> r.value == md5(env.read(origin).value)
    ensures r.Err? ==> r.error == env.read(origin).error
  {
    match env.read(origin)
    case Ok(bytes) => Ok(md5(bytes))
    case Err(e) => Err(e)
  }

  /**
   `fileExists`: the metadata request and then the local digest inside one
   try block; a 404 from either gives `false`, any other error propagates,
   and otherwise the answer is `metadata[0].md5Hash === hash`.
   */
  function FileExists(meta: Result<Metadata>, hash: Result<string>): (r: Result<bool>)
    // not found is not an error, whatever the local file
    ensures meta.Err? && IsNotFound(meta.error) ==> r == Ok(false)
    // up to date exactly when the stored digest equals the local one, without normalisation
    ensures r == Ok(true) <==> meta.Ok? && hash.Ok? && meta.value.md5Hash == Some(hash.value)
    // every other error reaches the caller unchanged
    ensures r.Err? <==> (meta.Err? && !IsNotFound(meta.error)) || (meta.Ok? && hash.Err? && !IsNotFound(hash.error))
    ensures r.Err? ==> r.error == (if meta.Err? then meta.error else hash.error)
  {
    match meta
    case Err(e) => if IsNotFound(e) then Ok(false) else Err(e)
    case Ok(m) =>
      match hash
      case Err(e) => if IsNotFound(e) then Ok(false) else Err(e)
      case Ok(h) => Ok(m.md5Hash == Some(h))
  }

  /**
   The check `uploadFile` runs for a descriptor: a new key is never up to
   date, whatever the local file; the answer is `true` exactly when the
   bucket holds the file's current digest; and it fails only with an error
   of the metadata request, or of reading a file whose key exists.
   */
  function CheckExists(store: Store, env: Env, md5: Fingerprint, d: Descriptor): (r: Result<bool>)
    ensures env.fetchFault(d.destination).None? && d.destination !in store ==> r == Ok(false)
    ensures r == Ok(true) <==> env.fetchFault(d.destination).None? && UpToDate(store, env, md5, d)
    ensures r.Err? <==>
      || (env.fetchFault(d.destination).Some? && !IsNotFound(env.fetchFault(d.destination).value))
      || (&& env.fetchFault(d.destination).None? && d.destination in store
          && env.read(d.origin).Err? && !IsNotFound(env.read(d.origin).error))
  {
    FileExists(GetMetadata(store, env, d.destination), HashFile(env, md5, d.origin))
  }

  datatype Action = Skipped | Written

  /** The outcome of one transfer and the bucket after it. */
  datatype Step = Step(outcome: Result<Action>, store: Store)

  /** What the bucket holds after `bytes` were streamed into it. */
  function Stored(bytes: Bytes, md5: Fingerprint): (o: RemoteObject)
    ensures o.data == bytes && o.md5Hash == Some(md5(bytes))
  {
    RemoteObject(bytes, Some(md5(bytes)))
  }

  /**
   `uploadFile`: skip when the check says the copy is up to date, stream the
   file to its key when it says it is not, reject with the check's error
   otherwise. A failed read or write rejects and leaves the object as it was.
   */
  function UploadFile(store: Store, env: Env, md5: Fingerprint, d: Descriptor): (s: Step)
    ensures s.outcome == Ok(Skipped) <==> CheckExists(store, env, md5, d) == Ok(true)
    ensures s.outcome == Ok(Written) <==>
      CheckExists(store, env, md5, d) == Ok(false) && env.read(d.origin).Ok? && env.writeFault(d.destination).None?
    ensures CheckExists(store, env, md5, d).Err? ==> s.outcome == Err(CheckExists(store, env, md5, d).error)
    // a failed read or write rejects with that stream's own error
    ensures CheckExists(store, env, md5, d) == Ok(false) && env.read(d.origin).Err? ==>
      s.outcome == Err(env.read(d.origin).error)
    ensures CheckExists(store, env, md5, d) == Ok(false) && env.read(d.origin).Ok? && env.writeFault(d.destination).Some? ==>
      s.outcome == Err(env.writeFault(d.destination).value)
    ensures s.outcome != Ok(Written) ==> s.store == store
    ensures s.outcome == Ok(Written) ==> s.store == store[d.destination := Stored(env.read(d.origin).value, md5)]
    ensures forall key :: key != d.destination ==>
      (key in s.store <==> key in store) && (key in store ==> s.store[key] == store[key])
  {
    match CheckExists(store, env, md5, d)
    case Err(e) => Step(Err(e), store)
    case Ok(true) => Step(Ok(Skipped), store)
    case Ok(false) =>
      match env.read(d.origin)
      case Err(e) => Step(Err(e), store)
      case Ok(bytes) =>
        match env.writeFault(d.destination)
        case Some(e) => Step(Err(e), store)
        case None => Step(Ok(Written), store[d.destination := Stored(bytes, md5)])
  }

  /** The local file can be read and the service answers every request for its key. */
  predicate Healthy(env: Env, d: Descriptor) {
    env.read(d.origin).Ok? && env.fetchFault(d.destination).None? && env.writeFault(d.destination).None?
  }

  /** The bucket holds the file's current contents under its key, by digest. */
  predicate UpToDate(store: Store, env: Env, md5: Fingerprint, d: Descriptor) {
    && env.read(d.origin).Ok?
    && d.destination in store
    && store[d.destination].md5Hash == Some(md5(env.read(d.origin).value))
  }

  /**
   When nothing fails, a transfer succeeds, leaves the object up to date,
   and skips exactly when it already was.
   */
  lemma HealthyUpload(store: Store, env: Env, md5: Fingerprint, d: Descriptor)
    requires Healthy(env, d)
    ensures var s := UploadFile(store, env, md5, d);
      && s.outcome.Ok?
      && UpToDate(s.store, env, md5, d)
      && (s.outcome == Ok(Skipped) <==> UpToDate(store, env, md5, d))
  {
    var meta := GetMetadata(store, env, d.destination);
    if d.destination !in store {
      assert meta == Err(NotFound);
    }
  }

  /** Uploading an unchanged file a second time writes nothing. */
  lemma UploadTwiceWritesOnce(store: Store, env: Env, md5: Fingerprint, d: Descriptor)
    requires Healthy(env, d)
    ensures var first := UploadFile(store, env, md5, d);
      UploadFile(first.store, env, md5, d) == Step(Ok(Skipped), first.store)
  {
    var first := UploadFile(store, env, md5, d);
    HealthyUpload(store, env, md5, d);
    HealthyUpload(first.store, env, md5, d);
  }

  /**
   How a call of `uploadFile` as written ends: its promise resolves,
   rejects, or never settles.
   */
  datatype Settlement = Resolves(action: Action) | Rejects(error: Error) | NeverSettles

  /**
   `uploadFile` as written: the 'error' listener is attached to the write
   stream that `pipe` returns, so an error of the read stream reaches no
   listener, and the promise neither resolves nor rejects.
   */
  function UploadFileAsWritten(store: Store, env: Env, md5: Fingerprint, d: Descriptor): (s: Settlement)
    ensures s == NeverSettles <==> CheckExists(store, env, md5, d) == Ok(false) && env.read(d.origin).Err?
    ensures s == Resolves(Skipped) <==> CheckExists(store, env, md5, d) == Ok(true)
    ensures s == Resolves(Written) <==>
      CheckExists(store, env, md5, d) == Ok(false) && env.read(d.origin).Ok? && env.writeFault(d.destination).None?
  {
    match CheckExists(store, env, md5, d)
    case Err(e) => Rejects(e)
    case Ok(true) => Resolves(Skipped)
    case Ok(false) =>
      match env.read(d.origin)
      case Err(_) => NeverSettles
      case Ok(_) =>
        match env.writeFault(d.destination)
        case Some(e) => Rejects(e)
        case None => Resolves(Written)
  }

  /** Where the code as written settles, it settles as `UploadFile` does. */
  lemma AsWrittenAgreesWhenSettled(store: Store, env: Env, md5: Fingerprint, d: Descriptor)
    ensures var s := UploadFile(store, env, md5, d);
      match UploadFileAsWritten(store, env, md5, d)
      case Resolves(a) => s.outcome == Ok(a)
      case Rejects(e) => s.outcome == Err(e)
      case NeverSettles => s.outcome == Err(env.read(d.origin).error) && s.store == store
  {
  }

  /**
   A local file that cannot be read (no read permission, say) and has no
   remote copy yet: as written the promise of the upload never settles, and
   the read error surfaces as an uncaught exception instead; `UploadFile`
   rejects with that error. The same file with a remote copy is rejected
   with the error even as written, because the digest is read first.
   */
  lemma UnreadableNewFileNeverSettles(store: Store, env: Env, md5: Fingerprint, d: Descriptor, copy: RemoteObject)
    requires d.destination !in store && env.fetchFault(d.destination).None?
    requires env.read(d.origin).Err? && !IsNotFound(env.read(d.origin).error)
    ensures UploadFileAsWritten(store, env, md5, d) == NeverSettles
    ensures UploadFile(store, env, md5, d).outcome == Err(env.read(d.origin).error)
    ensures UploadFileAsWritten(store[d.destination := copy], env, md5, d) == Rejects(env.read(d.origin).error)
  {
    assert GetMetadata(store, env, d.destination) == Err(NotFound);
    assert GetMetadata(store[d.destination := copy], env, d.destination).Ok?;
  }
}
