/**
 * CreateSummary: resolves the version, walks the artifacts directory once,
 * merging each file into an index of artifacts through get-or-create, then
 * flattens the index and sorts it by URL into the manifest.
 */
module Summary {
  import opened Wrappers
  import opened Strings
  import opened Manifest
  import opened Versions
  import opened Artifacts
  import opened ArchOrder
  import IndexFacts

  /** archMap: the artifacts discovered so far, one entry per identity key. */
  class ArchIndex {
    var arches: map<string, Arch>

    constructor ()
      ensures arches == map[]
    {
      arches := map[];
    }

    /**
     * getOrCreateArch: the entry for `key`, registering a zero-valued one
     * first when there is none. Existing entries are left as they are.
     */
    method GetOrCreate(key: string) returns (a: Arch)
      modifies this
      ensures a == Lookup(old(arches), key)
      ensures arches == old(arches)[key := a]
    {
      if key in arches {
        a := arches[key];
      } else {
        a := EmptyArch;
        arches := arches[key := a];
      }
    }

    /** Records a checksum file's digest in the entry of `key` (a.SHA256 = ...). */
    method SetDigest(key: string, digest: string)
      requires key in arches
      modifies this
      ensures arches == old(arches)[key := old(arches)[key].(sha256 := digest)]
    {
      arches := arches[key := arches[key].(sha256 := digest)];
    }

    /** Records an archive's URL and platform in the entry of `key` (a.URL = ..., a.Env = ...). */
    method SetArchive(key: string, url: string, env: ArchEnv)
      requires key in arches
      modifies this
      ensures arches == old(arches)[key := old(arches)[key].(url := url, env := env)]
    {
      arches := arches[key := arches[key].(url := url, env := env)];
    }

    /**
     * The append loop over the map: every entry exactly once, in an order the
     * map does not fix; `order` records the keys in the order taken.
     */
    method Values() returns (values: seq<Arch>, ghost order: seq<string>)
      ensures |values| == |order| == |arches|
      ensures forall v :: v in values <==> v in arches.Values
      ensures Distinct(order)
      ensures forall k :: k in arches <==> k in order
      ensures values == ValuesIn(arches, order)
    {
      values, order := [], [];
      var remaining := arches.Keys;
      while remaining != {}
        invariant remaining <= arches.Keys
        invariant |values| == |order| && |order| + |remaining| == |arches|
        invariant Distinct(order)
        invariant forall k :: k in arches <==> k in order || k in remaining
        invariant forall i :: 0 <= i < |order| ==> order[i] !in remaining
        invariant values == ValuesIn(arches, order)
        decreases |remaining|
      {
        var k :| k in remaining;
        values := values + [arches[k]];
        order := order + [k];
        remaining := remaining - {k};
      }
      ValuesCover(arches, order);
    }
  }

  /** The first suffix that matches is the one `FirstSuffixIndex` finds. */
  lemma {:induction false} FirstMatch(name: string, suffixes: seq<string>, j: nat)
    requires j < |suffixes| && HasSuffix(name, suffixes[j])
    requires forall k :: 0 <= k < j ==> !HasSuffix(name, suffixes[k])
    ensures FirstSuffixIndex(name, suffixes) == j
  {
    if j > 0 {
      assert !HasSuffix(name, suffixes[0]);
      FirstMatch(name, suffixes[1..], j - 1);
    }
  }

  lemma MatchedArchiveStep(before: map<string, Arch>, e: DirEntry, destinationURL: string, suffix: string, env: ArchEnv)
    requires !e.isDir && Classify(e.name) == Archive(suffix)
    requires ParseOsArch(OsArchSegment(e.name, suffix)) == Some(env)
    ensures Step(before, e, destinationURL)
         == Success(before[e.name := Lookup(before, e.name).(url := destinationURL + "/" + e.name, env := env)])
  {
  }

  /** The i-th value taken is the entry at the i-th key taken. */
  lemma {:induction false} ValuesAt(index: map<string, Arch>, order: seq<string>)
    requires forall k :: k in order ==> k in index
    ensures |ValuesIn(index, order)| == |order|
    ensures forall i :: 0 <= i < |order| ==> ValuesIn(index, order)[i] == index[order[i]]
    decreases |order|
  {
    if |order| > 0 {
      var prefix := order[..|order| - 1];
      assert forall i :: 0 <= i < |prefix| ==> prefix[i] == order[i];
      ValuesAt(index, prefix);
    }
  }

  /** Taken at keys that cover the map, the values are exactly the map's values. */
  lemma ValuesCover(index: map<string, Arch>, order: seq<string>)
    requires forall k :: k in index <==> k in order
    ensures forall v :: v in ValuesIn(index, order) <==> v in index.Values
  {
    ValuesAt(index, order);
    var values := ValuesIn(index, order);
    forall v | v in index.Values
      ensures v in values
    {
      var k :| k in index && index[k] == v;
      var i :| 0 <= i < |order| && order[i] == k;
      assert values[i] == v;
    }
  }

  /** The entries of `index` at the keys `order`, in that order. */
  ghost function ValuesIn(index: map<string, Arch>, order: seq<string>): seq<Arch> {
    if |order| == 0 then []
    else ValuesIn(index, order[..|order| - 1]) + [Lookup(index, order[|order| - 1])]
  }

  /** No key is taken twice. */
  predicate Distinct(order: seq<string>) {
    forall i, j :: 0 <= i < j < |order| ==> order[i] != order[j]
  }

  /** Any two orders that take every key of `index` once give up the same entries. */
  lemma ValuesInAnyOrder(index: map<string, Arch>, o1: seq<string>, o2: seq<string>)
    requires Distinct(o1) && Distinct(o2)
    requires forall k :: k in index <==> k in o1
    requires forall k :: k in index <==> k in o2
    ensures multiset(ValuesIn(index, o1)) == multiset(ValuesIn(index, o2))
  {
    forall k
      ensures multiset(o1)[k] == multiset(o2)[k]
    {
      DistinctCount(o1, k);
      DistinctCount(o2, k);
    }
    assert multiset(o1) == multiset(o2);
    ValuesInPermuted(index, o1, o2);
  }

  /** A key occurs at most once in an order without repeats. */
  lemma {:induction false} DistinctCount(order: seq<string>, k: string)
    requires Distinct(order)
    ensures multiset(order)[k] == if k in order then 1 else 0
    decreases |order|
  {
    if |order| > 0 {
      var prefix := order[..|order| - 1];
      assert order == prefix + [order[|order| - 1]];
      assert Distinct(prefix);
      DistinctCount(prefix, k);
      assert order[|order| - 1] !in prefix;
    }
  }

  /** The entries given up depend only on which keys are taken how often, not on their order. */
  lemma {:induction false} ValuesInPermuted(index: map<string, Arch>, o1: seq<string>, o2: seq<string>)
    requires multiset(o1) == multiset(o2)
    ensures multiset(ValuesIn(index, o1)) == multiset(ValuesIn(index, o2))
    decreases |o1|
  {
    assert |o1| == |multiset(o1)| == |multiset(o2)| == |o2|;
    if |o1| > 0 {
      var prefix := o1[..|o1| - 1];
      assert o1[|o1| - 1] in multiset(o2);
      var j :| 0 <= j < |o2| && o2[j] == o1[|o1| - 1];
      var rest := o2[..j] + o2[j + 1..];
      RemoveMatching(o1, o2, j);
      ValuesInPermuted(index, prefix, rest);
      ValuesInAround(index, o2, j);
    }
  }

  /** Taking the last key off one order and the same key off the other leaves equal multisets. */
  lemma RemoveMatching(o1: seq<string>, o2: seq<string>, j: nat)
    requires multiset(o1) == multiset(o2) && |o1| > 0
    requires j < |o2| && o2[j] == o1[|o1| - 1]
    ensures multiset(o1[..|o1| - 1]) == multiset(o2[..j] + o2[j + 1..])
  {
    var k := o2[j];
    var prefix, before, after := o1[..|o1| - 1], o2[..j], o2[j + 1..];
    assert o1 == prefix + [k];
    assert o2 == before + [k] + after;
    assert multiset(before + after) == multiset(before) + multiset(after);
    forall x
      ensures multiset(before + after)[x] == multiset(prefix)[x]
    {
      assert multiset(o1)[x] == multiset(prefix)[x] + multiset{k}[x];
      assert multiset(o2)[x] == multiset(before)[x] + multiset{k}[x] + multiset(after)[x];
    }
    assert multiset(before + after) == multiset(prefix);
  }

  /** The entries of an order are those without its j-th key plus that key's entry. */
  lemma ValuesInAround(index: map<string, Arch>, order: seq<string>, j: nat)
    requires j < |order|
    ensures multiset(ValuesIn(index, order))
         == multiset(ValuesIn(index, order[..j] + order[j + 1..])) + multiset{Lookup(index, order[j])}
  {
    var before, after := order[..j], order[j + 1..];
    assert order == (before + [order[j]]) + after;
    ValuesInAppend(index, before + [order[j]], after);
    ValuesInAppend(index, before, after);
    assert (before + [order[j]])[..|before|] == before;
  }

  /** Taking the keys of `first` then those of `second` gives up their entries in that order. */
  lemma {:induction false} ValuesInAppend(index: map<string, Arch>, first: seq<string>, second: seq<string>)
    ensures ValuesIn(index, first + second) == ValuesIn(index, first) + ValuesIn(index, second)
    decreases |second|
  {
    if |second| > 0 {
      var k := second[|second| - 1];
      var rest := second[..|second| - 1];
      assert (first + second)[..|first + second| - 1] == first + rest;
      ValuesInAppend(index, first, rest);
    } else {
      assert first + second == first;
    }
  }

  /** The index the artifacts directory yields: empty when there is no directory to scan. */
  ghost function ExpectedIndex(info: BuildResultsDirectoryInfo, tree: BuildTree): Result<map<string, Arch>, Error> {
    if info.artifactsDir == "" then Success(map[])
    else match tree.artifacts
      case Unlistable => Failure(DirectoryUnreadable)
      case Listed(entries) => BuildIndex(entries, info.destinationURL)
  }

  /**
   * The scan of a listed artifacts directory fails exactly when some entry is
   * malformed (an unreadable or blank checksum file, an archive name without
   * a '-' in its platform segment), and then with the first such entry's error.
   */
  lemma ScanOutcome(info: BuildResultsDirectoryInfo, tree: BuildTree)
    requires info.artifactsDir != "" && tree.artifacts.Listed?
    ensures ExpectedIndex(info, tree).Success? <==> IndexFacts.AllWellFormed(tree.artifacts.entries)
    ensures forall i ::
      (0 <= i < |tree.artifacts.entries| && !IndexFacts.WellFormed(tree.artifacts.entries[i])
       && (forall j :: 0 <= j < i ==> IndexFacts.WellFormed(tree.artifacts.entries[j]))) ==>
        ExpectedIndex(info, tree) == Failure(IndexFacts.EntryError(tree.artifacts.entries[i]))
  {
    var entries := tree.artifacts.entries;
    IndexFacts.ScanSucceeds(entries, info.destinationURL);
    forall i | 0 <= i < |entries| && !IndexFacts.WellFormed(entries[i])
      && (forall j :: 0 <= j < i ==> IndexFacts.WellFormed(entries[j]))
      ensures ExpectedIndex(info, tree) == Failure(IndexFacts.EntryError(entries[i]))
    {
      IndexFacts.FirstMalformedEntry(entries, info.destinationURL, i);
    }
  }

  /**
   * `assets` is a manifest CreateSummary may produce when the map gives up its
   * keys in `order`: the branch and build ID copied, the resolved version, and
   * the index's entries, each exactly once, sorted by URL.
   */
  ghost predicate Summarizes(info: BuildResultsDirectoryInfo, tree: BuildTree, assets: BuildAssets, order: seq<string>) {
    && ResolveVersion(tree).Success?
    && ExpectedIndex(info, tree).Success?
    && var index := ExpectedIndex(info, tree).value;
    && assets.branch == info.branch
    && assets.buildID == info.buildID
    && assets.version == ResolveVersion(tree).value
    && SortedByURL(assets.arches)
    && |assets.arches| == |index|
    && (info.artifactsDir != "" ==> |assets.arches| == |Artifacts.Keys(tree.artifacts.entries)|)
    && Distinct(order)
    && (forall k :: k in index <==> k in order)
    && multiset(assets.arches) == multiset(ValuesIn(index, order))
  }

  /**
   * The manifest does not depend on the order the map gives up its keys in,
   * as long as no two different entries of the index share a URL: two
   * manifests CreateSummary may produce for the same build are equal.
   */
  lemma OutputIndependentOfMapOrder(info: BuildResultsDirectoryInfo, tree: BuildTree,
                                    a1: BuildAssets, o1: seq<string>, a2: BuildAssets, o2: seq<string>)
    requires Summarizes(info, tree, a1, o1) && Summarizes(info, tree, a2, o2)
    requires forall v, w ::
      (v in ExpectedIndex(info, tree).value.Values && w in ExpectedIndex(info, tree).value.Values && v.url == w.url) ==> v == w
    ensures a1 == a2
  {
    var index := ExpectedIndex(info, tree).value;
    ValuesInAnyOrder(index, o1, o2);
    ValuesCover(index, o1);
    var s := a1.arches;
    forall i, j | 0 <= i < |s| && 0 <= j < |s| && s[i].url == s[j].url
      ensures s[i] == s[j]
    {
      assert s[i] in multiset(ValuesIn(index, o1)) && s[j] in multiset(ValuesIn(index, o1));
    }
    SortedUnique(a1.arches, a2.arches);
  }

  /**
   * CreateSummary. It fails exactly when a marker file or the directory
   * cannot be read or the scan fails (see `ScanOutcome`), the version errors
   * first. Otherwise the manifest carries the branch and build
   * ID, the resolved version, and the index's entries, each exactly once
   * (`order` is the order the map gave them up in), sorted by URL.
   */
  method CreateSummary(info: BuildResultsDirectoryInfo, tree: BuildTree)
    returns (r: Result<BuildAssets, Error>, ghost order: seq<string>)
    ensures r.Failure? <==> ResolveVersion(tree).Failure? || ExpectedIndex(info, tree).Failure?
    ensures r.Failure? ==>
      r.error == if ResolveVersion(tree).Failure? then ResolveVersion(tree).error else ExpectedIndex(info, tree).error
    ensures r.Success? ==> Summarizes(info, tree, r.value, order)
    ensures info.artifactsDir == "" && ResolveVersion(tree).Success? ==> r.Success? && r.value.arches == []
  {
    order := [];
    var goVersion := GetVersion(tree.versionFile, VersionDefault);
    if goVersion.None? {
      return Failure(VersionFileUnreadable), order;
    }
    var goRevision := GetVersion(tree.revisionFile, RevisionDefault);
    if goRevision.None? {
      return Failure(RevisionFileUnreadable), order;
    }
    var version := TrimPrefix(goVersion.value, "go");

    var index := new ArchIndex();
    if info.artifactsDir != "" {
      if tree.artifacts.Unlistable? {
        return Failure(DirectoryUnreadable), order;
      }
      var entries := tree.artifacts.entries;
      var failure := ScanEntries(index, entries, info.destinationURL);
      if failure.Some? {
        return Failure(failure.value), order;
      }
      IndexFacts.IndexKeys(entries, info.destinationURL);
    }

    var values;
    values, order := index.Values();
    var arches := new Arch[|values|](i requires 0 <= i < |values| => values[i]);
    assert arches[..] == values;
    SortByURL(arches);
    r := Success(BuildAssets(info.branch, info.buildID, version + "-" + goRevision.value, arches[..]));
  }

  /**
   * The loop over the directory entries: merges each file into `index`, or
   * stops at the first failure, which is then the failure of the whole listing.
   */
  method ScanEntries(index: ArchIndex, entries: seq<DirEntry>, destinationURL: string) returns (failure: Option<Error>)
    requires index.arches == map[]
    modifies index
    ensures failure.None? <==> BuildIndex(entries, destinationURL).Success?
    ensures failure.Some? ==> BuildIndex(entries, destinationURL) == Failure(failure.value)
    ensures failure.None? ==> index.arches == BuildIndex(entries, destinationURL).value
  {
    var i := 0;
    while i < |entries|
      invariant 0 <= i <= |entries|
      invariant BuildIndex(entries[..i], destinationURL) == Success(index.arches)
    {
      IndexFacts.BuildIndexExtends(entries, destinationURL, i, index.arches);
      failure := MergeEntry(index, entries[i], destinationURL);
      if failure.Some? {
        IndexFacts.FailureIsFinal(entries, destinationURL, i + 1);
        return;
      }
      i := i + 1;
    }
    assert entries[..i] == entries;
    return None;
  }

  /**
   * The body of the loop for one entry: a directory is skipped; a checksum
   * file's digest goes to the entry of its key; an archive, matched against
   * the archive suffixes in order until the first fits, gives the entry of
   * its own name a URL and a platform.
   */
  method MergeEntry(index: ArchIndex, e: DirEntry, destinationURL: string) returns (failure: Option<Error>)
    modifies index
    ensures failure.None? ==> Step(old(index.arches), e, destinationURL) == Success(index.arches)
    ensures failure.Some? ==> Step(old(index.arches), e, destinationURL) == Failure(failure.value)
  {
    if e.isDir {
      return None;
    }
    if HasSuffix(e.name, ChecksumSuffix) {
      failure := MergeChecksum(index, e, destinationURL);
    } else {
      failure := MergeArchive(index, e, destinationURL);
    }
  }

  /**
   * A file that is not a checksum: tried against each archive suffix in
   * order; the first that fits gives the entry of the file's own name its
   * URL and the platform parsed from the name, and ends the search.
   */
  method MergeArchive(index: ArchIndex, e: DirEntry, destinationURL: string) returns (failure: Option<Error>)
    requires !e.isDir && !HasSuffix(e.name, ChecksumSuffix)
    modifies index
    ensures failure.None? ==> Step(old(index.arches), e, destinationURL) == Success(index.arches)
    ensures failure.Some? ==> Step(old(index.arches), e, destinationURL) == Failure(failure.value)
  {
    ghost var before := index.arches;
    var j := 0;
    while j < |ArchiveSuffixes|
      invariant 0 <= j <= |ArchiveSuffixes|
      invariant forall k :: 0 <= k < j ==> !HasSuffix(e.name, ArchiveSuffixes[k])
      invariant index.arches == before
    {
      var suffix := ArchiveSuffixes[j];
      if HasSuffix(e.name, suffix) {
        FirstMatch(e.name, ArchiveSuffixes, j);
        failure := MergeMatchedArchive(index, e, destinationURL, suffix);
        return;
      }
      j := j + 1;
    }
    assert Classify(e.name) == Ignored;
    return None;
  }

  /**
   * An archive matched by `suffix`: GOOS and GOARCH are the first two
   * dash-separated pieces of the text between the last '.' and the suffix;
   * then get-or-create the entry of the archive's name and set its URL and platform.
   */
  method MergeMatchedArchive(index: ArchIndex, e: DirEntry, destinationURL: string, suffix: string)
    returns (failure: Option<Error>)
    requires !e.isDir && Classify(e.name) == Archive(suffix)
    modifies index
    ensures failure.None? ==> Step(old(index.arches), e, destinationURL) == Success(index.arches)
    ensures failure.Some? ==> Step(old(index.arches), e, destinationURL) == Failure(failure.value)
  {
    ghost var before := index.arches;
    var extensionless := TrimSuffix(e.name, suffix);
    var osArch := extensionless[LastIndexOf(extensionless, '.') + 1..];
    assert osArch == OsArchSegment(e.name, suffix);
    var platform := ParseOsArch(osArch);
    if platform.None? {
      return Some(MalformedArchiveName(e.name));
    }
    RecordArchive(index, e.name, destinationURL + "/" + e.name, platform.value);
    MatchedArchiveStep(before, e, destinationURL, suffix, platform.value);
    return None;
  }

  /** get-or-create the entry of `key`, then set its URL and platform through it. */
  method RecordArchive(index: ArchIndex, key: string, url: string, env: ArchEnv)
    modifies index
    ensures index.arches == old(index.arches)[key := Lookup(old(index.arches), key).(url := url, env := env)]
  {
    var _ := index.GetOrCreate(key);
    index.SetArchive(key, url, env);
  }

  /** A checksum file: get-or-create the entry of its key, then store the first field of its text. */
  method MergeChecksum(index: ArchIndex, e: DirEntry, ghost destinationURL: string) returns (failure: Option<Error>)
    requires !e.isDir && HasSuffix(e.name, ChecksumSuffix)
    modifies index
    ensures failure.None? ==> Step(old(index.arches), e, destinationURL) == Success(index.arches)
    ensures failure.Some? ==> Step(old(index.arches), e, destinationURL) == Failure(failure.value)
  {
    var key := TrimSuffix(e.name, ChecksumSuffix);
    assert Classify(e.name) == Checksum(key);
    ghost var before := index.arches;
    var _ := index.GetOrCreate(key);
    if !e.contents.Content? {
      return Some(ChecksumUnreadable(e.name));
    }
    var fields := Fields(e.contents.text);
    if |fields| == 0 {
      return Some(MalformedChecksum(e.name));
    }
    index.SetDigest(key, fields[0]);
    assert index.arches == before[key := Lookup(before, key).(sha256 := fields[0])];
    return None;
  }
}
