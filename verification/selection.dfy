/**
 The file selector, `getFiles`: the directory listing is shuffled, paths
 that match a disallow pattern are dropped, then, when there are allow
 patterns, only paths that match one of them are kept, and every survivor
 is paired with its destination key.

 The glob matcher (`minimatch`) is the parameter `matches(path, pattern)`;
 nothing is assumed about it.
 */
module Selection {
  import opened Outcomes
  import opened Seqs
  import opened Shuffle

  /** A local file and the key it is uploaded to. */
  datatype Descriptor = Descriptor(origin: string, destination: string)

  /** The arguments of `getFiles`; absent filter lists are empty. */
  datatype Options = Options(origin: string, destination: string, disallow: seq<string>, allow: seq<string>)

  type Matcher = (string, string) -> bool

  /** `patterns.filter(pattern => minimatch(item, pattern))` */
  function MatchingPatterns(item: string, patterns: seq<string>, matches: Matcher): seq<string> {
    Filter(patterns, p => matches(item, p))
  }

  /** The matching patterns are counted as non-zero exactly when some pattern matches. */
  lemma MatchingPatternsCount(item: string, patterns: seq<string>, matches: Matcher)
    ensures |MatchingPatterns(item, patterns, matches)| > 0 <==> exists p :: p in patterns && matches(item, p)
  {
    var m := MatchingPatterns(item, patterns, matches);
    forall p ensures p in m <==> p in patterns && matches(item, p) {
      FilterKeeps(patterns, q => matches(item, q), p);
    }
    if |m| > 0 {
      assert m[0] in m;
    }
  }

  /**
   The disallow stage: `disallow.length ? !<matching disallow patterns>.length : true`.
   A path passes exactly when no disallow pattern matches it.
   */
  predicate PassesDisallow(item: string, disallow: seq<string>, matches: Matcher)
    ensures PassesDisallow(item, disallow, matches) <==> forall p :: p in disallow ==> !matches(item, p)
  {
    MatchingPatternsCount(item, disallow, matches);
    if |disallow| > 0 then |MatchingPatterns(item, disallow, matches)| == 0 else true
  }

  /**
   The allow stage: `allow.length ? <matching allow patterns>.length : true`, a
   count taken as a truth value. A path passes exactly when there are no allow
   patterns or one of them matches it.
   */
  predicate PassesAllow(item: string, allow: seq<string>, matches: Matcher)
    ensures PassesAllow(item, allow, matches) <==> allow == [] || exists p :: p in allow && matches(item, p)
  {
    MatchingPatternsCount(item, allow, matches);
    if |allow| > 0 then |MatchingPatterns(item, allow, matches)| > 0 else true
  }

  /**
   The filter rule stated directly: no disallow pattern matches, and either
   there are no allow patterns or one of them matches.
   */
  ghost predicate Admitted(item: string, opts: Options, matches: Matcher) {
    && (forall p :: p in opts.disallow ==> !matches(item, p))
    && (opts.allow == [] || exists p :: p in opts.allow && matches(item, p))
  }

  /** A path passes both stages exactly when the rule `Admitted` admits it. */
  lemma PassesIffAdmitted(item: string, opts: Options, matches: Matcher)
    ensures PassesDisallow(item, opts.disallow, matches) && PassesAllow(item, opts.allow, matches)
      <==> Admitted(item, opts, matches)
  {
  }

  /** `path.relative(origin, item)` for a path below `origin`. */
  predicate Below(root: string, item: string) {
    |root| < |item| && item[..|root|] == root && item[|root|] == '/'
  }

  function Relative(root: string, item: string): string {
    if Below(root, item) then item[|root| + 1..] else item
  }

  /** `path.join(base, rel)` for a base without a trailing separator. */
  function Join(base: string, rel: string): string {
    if base == [] then rel else base + "/" + rel
  }

  /** `{ origin: item, destination: path.join(destination, path.relative(origin, item)) }` */
  function Describe(opts: Options, item: string): (d: Descriptor)
    ensures d.origin == item
  {
    Descriptor(item, Join(opts.destination, Relative(opts.origin, item)))
  }

  /** The destination of a file below the root mirrors its place under the root. */
  lemma DestinationMirrorsTree(opts: Options, rel: string)
    requires opts.destination != []
    ensures Describe(opts, opts.origin + "/" + rel).destination == opts.destination + "/" + rel
  {
    var item := opts.origin + "/" + rel;
    assert item[..|opts.origin|] == opts.origin;
    assert item[|opts.origin| + 1..] == rel;
  }

  /** Two different files below the root never share a destination key. */
  lemma DescribeInjective(opts: Options, x: string, y: string)
    requires Below(opts.origin, x) && Below(opts.origin, y) && x != y
    ensures Describe(opts, x).destination != Describe(opts, y).destination
  {
    var root := opts.origin;
    assert x == root + "/" + Relative(root, x);
    assert y == root + "/" + Relative(root, y);
    var base := opts.destination;
    if base != [] {
      var dx, dy := Describe(opts, x).destination, Describe(opts, y).destination;
      assert dx[|base| + 1..] == Relative(root, x);
      assert dy[|base| + 1..] == Relative(root, y);
    }
  }

  /** The paths the two filter stages keep, in listing order. */
  function Kept(list: seq<string>, opts: Options, matches: Matcher): seq<string> {
    Filter(Filter(list, item => PassesDisallow(item, opts.disallow, matches)),
           item => PassesAllow(item, opts.allow, matches))
  }

  function Origins(files: seq<Descriptor>): (r: seq<string>)
    ensures |r| == |files| && forall k :: 0 <= k < |files| ==> r[k] == files[k].origin
  {
    seq(|files|, k requires 0 <= k < |files| => files[k].origin)
  }

  function Destinations(files: seq<Descriptor>): (r: seq<string>)
    ensures |r| == |files| && forall k :: 0 <= k < |files| ==> r[k] == files[k].destination
  {
    seq(|files|, k requires 0 <= k < |files| => files[k].destination)
  }

  /** The filter, filter and map chain of `getFiles`, applied to the shuffled listing. */
  function SelectFiles(list: seq<string>, opts: Options, matches: Matcher): (files: seq<Descriptor>)
    ensures |files| <= |list|
    ensures forall d :: d in files ==>
      d.origin in list && Admitted(d.origin, opts, matches) && d == Describe(opts, d.origin)
  {
    var kept := Kept(list, opts, matches);
    assert forall k :: 0 <= k < |kept| ==> kept[k] in kept;
    seq(|kept|, k requires 0 <= k < |kept| => Describe(opts, kept[k]))
  }

  /**
   What `getFiles` selects: the survivors are exactly the listed paths the
   filter rule admits, in listing order, each paired with its destination.
   */
  lemma SelectFilesSpec(list: seq<string>, opts: Options, matches: Matcher)
    ensures var files := SelectFiles(list, opts, matches);
      && Origins(files) == Filter(list, item => Admitted(item, opts, matches))
      && (forall d :: d in files ==> d == Describe(opts, d.origin))
  {
    forall item {
      PassesIffAdmitted(item, opts, matches);
    }
    FilterFilter(list, item => PassesDisallow(item, opts.disallow, matches),
                 item => PassesAllow(item, opts.allow, matches),
                 item => Admitted(item, opts, matches));
    var files := SelectFiles(list, opts, matches);
    assert Origins(files) == Kept(list, opts, matches);
  }

  /** A path is selected exactly when it is listed and the rule admits it. */
  lemma SelectedIffAdmitted(list: seq<string>, opts: Options, matches: Matcher, item: string)
    ensures item in Origins(SelectFiles(list, opts, matches)) <==> item in list && Admitted(item, opts, matches)
  {
    SelectFilesSpec(list, opts, matches);
    FilterKeeps(list, i => Admitted(i, opts, matches), item);
  }

  /** The selection is the listing with some paths left out and the others kept in order. */
  lemma SelectionIsSubsequence(list: seq<string>, opts: Options, matches: Matcher)
    ensures IsSubsequence(Origins(SelectFiles(list, opts, matches)), list)
  {
    SelectFilesSpec(list, opts, matches);
    FilterIsSubsequence(list, i => Admitted(i, opts, matches));
  }

  /** A path that matches a disallow pattern is never selected, whatever the allow patterns say. */
  lemma DisallowWins(list: seq<string>, opts: Options, matches: Matcher, item: string, pattern: string)
    requires pattern in opts.disallow && matches(item, pattern)
    ensures item !in Origins(SelectFiles(list, opts, matches))
  {
    SelectedIffAdmitted(list, opts, matches, item);
  }

  /** With no allow and no disallow patterns every listed file is selected, in listing order. */
  lemma EmptyFiltersSelectAll(list: seq<string>, opts: Options, matches: Matcher)
    requires opts.disallow == [] && opts.allow == []
    ensures Origins(SelectFiles(list, opts, matches)) == list
    ensures |SelectFiles(list, opts, matches)| == |list|
  {
    SelectFilesSpec(list, opts, matches);
    FilterAll(list, i => Admitted(i, opts, matches));
  }

  /** What `getFiles` returns for a listing and a stream of `Math.random()` results. */
  function Selected(list: seq<string>, opts: Options, matches: Matcher, draws: nat -> Draw): (files: seq<Descriptor>)
    ensures |files| <= |list|
    ensures forall d :: d in files ==>
      d.origin in list && Admitted(d.origin, opts, matches) && d == Describe(opts, d.origin)
  {
    FromDrawsBounded(draws);
    ShuffledPermutes(list, FromDraws(draws));
    var shuffled := Shuffled(list, FromDraws(draws));
    assert forall x :: x in shuffled ==> x in multiset(shuffled);
    SelectFiles(shuffled, opts, matches)
  }

  /**
   Shuffling before filtering, as `getFiles` does, selects the same files as
   filtering the listing unshuffled: each path as often as the listing holds
   it when the rule admits it, otherwise not at all.
   */
  lemma ShuffleThenFilter(list: seq<string>, opts: Options, matches: Matcher, draws: nat -> Draw)
    ensures multiset(Origins(Selected(list, opts, matches, draws)))
         == multiset(Filter(list, item => Admitted(item, opts, matches)))
  {
    FromDrawsBounded(draws);
    var shuffled := Shuffled(list, FromDraws(draws));
    ShuffledPermutes(list, FromDraws(draws));
    SelectFilesSpec(shuffled, opts, matches);
    FilterMultiset(shuffled, list, item => Admitted(item, opts, matches));
  }

  /**
   Among descriptors that each describe their own origin, a descriptor for
   `x` occurs as often as `x` occurs among the origins.
   */
  lemma {:induction false} DescribedCount(files: seq<Descriptor>, describe: string -> Descriptor, x: string)
    requires forall y :: describe(y).origin == y
    requires forall e :: e in files ==> e == describe(e.origin)
    ensures multiset(files)[describe(x)] == multiset(Origins(files))[x]
  {
    if files != [] {
      var f, rest := files[0], files[1..];
      DescribedCount(rest, describe, x);
      assert files == [f] + rest;
      OriginsCons(f, rest);
      assert f == describe(x) <==> f.origin == x;
    }
  }

  lemma OriginsCons(f: Descriptor, rest: seq<Descriptor>)
    ensures multiset(Origins([f] + rest)) == multiset{f.origin} + multiset(Origins(rest))
  {
    assert Origins([f] + rest) == [f.origin] + Origins(rest);
  }

  /**
   A listing of distinct files below the origin yields distinct destination
   keys, so no upload of the batch overwrites another.
   */
  lemma DistinctDestinations(list: seq<string>, opts: Options, matches: Matcher, draws: nat -> Draw)
    requires Distinct(list) && forall item :: item in list ==> Below(opts.origin, item)
    ensures Distinct(Destinations(Selected(list, opts, matches, draws)))
  {
    FromDrawsBounded(draws);
    var shuffled := Shuffled(list, FromDraws(draws));
    ShuffledPermutes(list, FromDraws(draws));
    DistinctPermutation(list, shuffled);
    var files := SelectFiles(shuffled, opts, matches);
    SelectFilesSpec(shuffled, opts, matches);
    var admitted := Filter(shuffled, item => Admitted(item, opts, matches));
    FilterDistinct(shuffled, item => Admitted(item, opts, matches));
    forall i, j | 0 <= i < j < |files| ensures files[i].destination != files[j].destination {
      assert Origins(files)[i] == admitted[i] && Origins(files)[j] == admitted[j];
      assert admitted[i] in shuffled && admitted[j] in shuffled;
      assert multiset(shuffled) == multiset(list);
      assert admitted[i] in multiset(list) && admitted[j] in multiset(list);
      DescribeInjective(opts, files[i].origin, files[j].origin);
    }
  }

  /**
   `getFiles` with the listing `recursiveReaddir` produced (or its error),
   the shuffle done in place on an array of it.
   */
  method GetFiles(listing: Result<seq<string>>, opts: Options, matches: Matcher, draws: nat -> Draw)
    returns (r: Result<seq<Descriptor>>)
    ensures listing.Err? ==> r == Err(listing.error)
    ensures listing.Ok? ==> r == Ok(Selected(listing.value, opts, matches, draws))
  {
    if listing.Err? {
      return Err(listing.error);
    }
    var list := listing.value;
    var a := new string[|list|](k requires 0 <= k < |list| => list[k]);
    assert a[..] == list;
    FromDrawsBounded(draws);
    ShuffleArray(a, FromDraws(draws));
    r := Ok(SelectFiles(a[..], opts, matches));
  }
}
