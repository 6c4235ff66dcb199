/**
 The uploader's entry point, `upload`: select the files under the origin
 with the configured filters, then upload them as one batch.
 */
module Uploader {
  import opened Outcomes
  import opened Seqs
  import opened Shuffle
  import opened Selection
  import opened Transfer
  import opened Batch

  /** The filter lists of the uploader's configuration; absent lists are empty. */
  datatype Config = Config(disallow: seq<string>, allow: seq<string>)

  function OptionsFor(config: Config, origin: string, destination: string): Options {
    Options(origin, destination, config.disallow, config.allow)
  }

  /**
   `upload({ origin, destination })`: the listing of `origin` (or the error
   listing it raised), then `getFiles`, then `uploadMultipleFiles`.
   */
  method Upload(config: Config, origin: string, destination: string, listing: Result<seq<string>>,
                matches: Matcher, draws: nat -> Draw, store: Store, env: Env, md5: Fingerprint)
    returns (r: Result<()>, attempted: seq<nat>, final: Store)
    ensures listing.Err? ==> r == Err(listing.error) && attempted == [] && final == store
    ensures listing.Ok? ==>
      var files := Selected(listing.value, OptionsFor(config, origin, destination), matches, draws);
      var b := RunFrom(files, 0, store, UploadIn(env, md5));
      r == b.result && final == b.store && attempted == Indices(b.attempted)
  {
    var files := GetFiles(listing, OptionsFor(config, origin, destination), matches, draws);
    if files.Err? {
      return Err(files.error), [], store;
    }
    r, attempted, final := UploadMultipleFiles(files.value, store, env, md5);
  }

  /**
   Whatever the draws, `getFiles` selects the same descriptors, each as
   often, only in another order.
   */
  lemma SameSelection(list: seq<string>, opts: Options, matches: Matcher, draws: nat -> Draw, other: nat -> Draw)
    ensures multiset(Selected(list, opts, matches, draws)) == multiset(Selected(list, opts, matches, other))
  {
    var files, others := Selected(list, opts, matches, draws), Selected(list, opts, matches, other);
    ShuffleThenFilter(list, opts, matches, draws);
    ShuffleThenFilter(list, opts, matches, other);
    var describe := (y: string) => Describe(opts, y);
    forall d: Descriptor ensures multiset(files)[d] == multiset(others)[d] {
      if d == Describe(opts, d.origin) {
        DescribedCount(files, describe, d.origin);
        DescribedCount(others, describe, d.origin);
      } else {
        assert d !in files && d !in others;
      }
    }
    SameCounts(multiset(files), multiset(others));
  }

  /**
   Running `upload` twice over an unchanged tree of distinct files, with
   nothing failing: the first run succeeds, and the second, whatever order
   its shuffle picks, skips every file and leaves the bucket as it was.
   */
  lemma UploadIsIdempotent(config: Config, origin: string, destination: string, list: seq<string>,
                           matches: Matcher, draws: nat -> Draw, again: nat -> Draw,
                           store: Store, env: Env, md5: Fingerprint)
    requires Distinct(list)
    requires forall item :: item in list ==>
      Below(origin, item) && Healthy(env, Describe(OptionsFor(config, origin, destination), item))
    ensures var opts := OptionsFor(config, origin, destination);
      var first := RunFrom(Selected(list, opts, matches, draws), 0, store, UploadIn(env, md5));
      var files := Selected(list, opts, matches, again);
      && first.result.Ok?
      && RunFrom(files, 0, first.store, UploadIn(env, md5)) == Run(Ok(()), |files|, first.store)
  {
    var opts := OptionsFor(config, origin, destination);
    var files := Selected(list, opts, matches, draws);
    assert forall d :: d in files ==> Healthy(env, d);
    DistinctDestinations(list, opts, matches, draws);
    SameSelection(list, opts, matches, draws, again);
    assert forall d :: d in Selected(list, opts, matches, again) ==> d in multiset(files);
    BatchIdempotent(files, Selected(list, opts, matches, again), store, env, md5);
  }
}
