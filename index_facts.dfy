/**
 * What the index built from a directory listing holds: exactly one entry per
 * identity key, each field set by the one file that owns it, whatever order
 * the files are listed in.
 */
module IndexFacts {
  import opened Wrappers
  import opened Strings
  import opened Manifest
  import opened Artifacts

  /** `e` is an archive file named `key`: the only kind of entry that sets the URL and platform of `key`. */
  predicate IsArchiveNamed(e: DirEntry, key: string) {
    !e.isDir && Classify(e.name).Archive? && e.name == key
  }

  /** `e` is a checksum file for `key`: the only kind of entry that sets the digest of `key`. */
  predicate IsChecksumFor(e: DirEntry, key: string) {
    !e.isDir && Classify(e.name) == Checksum(key)
  }

  /** Directories and files matching no suffix leave the index as it is. */
  lemma IgnoredEntryAddsNothing(index: map<string, Arch>, e: DirEntry, destinationURL: string)
    requires KeyOf(e).None?
    ensures Step(index, e, destinationURL) == Success(index)
  {
  }

  /**
   * get-or-create: a step adds at most its own key, keeps every other entry
   * as it was, and changes of its own key's entry only the fields its kind owns.
   */
  lemma StepChangesOnlyItsKey(index: map<string, Arch>, e: DirEntry, destinationURL: string, key: string)
    requires Step(index, e, destinationURL).Success?
    ensures var after := Step(index, e, destinationURL).value;
      && after.Keys == index.Keys + (if KeyOf(e).Some? then {KeyOf(e).value} else {})
      && (KeyOf(e) != Some(key) ==> Lookup(after, key) == Lookup(index, key))
      && (!IsArchiveNamed(e, key) ==>
            Lookup(after, key).url == Lookup(index, key).url && Lookup(after, key).env == Lookup(index, key).env)
      && (!IsChecksumFor(e, key) ==> Lookup(after, key).sha256 == Lookup(index, key).sha256)
  {
    if !e.isDir {
      match Classify(e.name)
      case Ignored =>
      case Checksum(k) => ChecksumStep(index, e, destinationURL, key);
      case Archive(suffix) => ArchiveStep(index, e, destinationURL, key);
    }
  }

  lemma ChecksumStep(index: map<string, Arch>, e: DirEntry, destinationURL: string, key: string)
    requires !e.isDir && Classify(e.name).Checksum?
    requires Step(index, e, destinationURL).Success?
    ensures var after := Step(index, e, destinationURL).value;
      && after.Keys == index.Keys + (if KeyOf(e).Some? then {KeyOf(e).value} else {})
      && (KeyOf(e) != Some(key) ==> Lookup(after, key) == Lookup(index, key))
      && (!IsArchiveNamed(e, key) ==>
            Lookup(after, key).url == Lookup(index, key).url && Lookup(after, key).env == Lookup(index, key).env)
      && (!IsChecksumFor(e, key) ==> Lookup(after, key).sha256 == Lookup(index, key).sha256)
  {
    var k := Classify(e.name).key;
    var after := Step(index, e, destinationURL).value;
    assert KeyOf(e) == Some(k);
    assert !IsArchiveNamed(e, key);
    var digest := Digest(e.contents.text).value;
    var a := Lookup(index, k).(sha256 := digest);
    assert after == index[k := a];
    LookupUpdate(index, k, a, key);
  }

  lemma ArchiveStep(index: map<string, Arch>, e: DirEntry, destinationURL: string, key: string)
    requires !e.isDir && Classify(e.name).Archive?
    requires Step(index, e, destinationURL).Success?
    ensures var after := Step(index, e, destinationURL).value;
      && after.Keys == index.Keys + (if KeyOf(e).Some? then {KeyOf(e).value} else {})
      && (KeyOf(e) != Some(key) ==> Lookup(after, key) == Lookup(index, key))
      && (!IsArchiveNamed(e, key) ==>
            Lookup(after, key).url == Lookup(index, key).url && Lookup(after, key).env == Lookup(index, key).env)
      && (!IsChecksumFor(e, key) ==> Lookup(after, key).sha256 == Lookup(index, key).sha256)
  {
    var after := Step(index, e, destinationURL).value;
    assert KeyOf(e) == Some(e.name);
    assert !IsChecksumFor(e, key);
    var env := ParseOsArch(OsArchSegment(e.name, Classify(e.name).suffix)).value;
    var a := Lookup(index, e.name).(url := destinationURL + "/" + e.name, env := env);
    assert after == index[e.name := a];
    LookupUpdate(index, e.name, a, key);
  }

  lemma LookupUpdate(index: map<string, Arch>, k: string, a: Arch, key: string)
    ensures index[k := a].Keys == index.Keys + {k}
    ensures Lookup(index[k := a], key) == if key == k then a else Lookup(index, key)
  {
  }

  /** Processing one more entry of a successful prefix is one more step. */
  lemma BuildIndexExtends(entries: seq<DirEntry>, destinationURL: string, i: nat, index: map<string, Arch>)
    requires i < |entries| && BuildIndex(entries[..i], destinationURL) == Success(index)
    ensures BuildIndex(entries[..i + 1], destinationURL) == Step(index, entries[i], destinationURL)
  {
    var prefix := entries[..i + 1];
    assert prefix[..i] == entries[..i] && prefix[i] == entries[i];
  }

  /**
   * An entry the scan accepts: a directory, a file matching no suffix, a
   * readable checksum file with at least one field, or an archive whose
   * platform segment holds a '-'.
   */
  predicate WellFormed(e: DirEntry) {
    e.isDir ||
    match Classify(e.name)
    case Ignored => true
    case Checksum(_) => e.contents.Content? && !AllSpace(e.contents.text)
    case Archive(suffix) => '-' in OsArchSegment(e.name, suffix)
  }

  /** The error a malformed entry stops the scan with. */
  function EntryError(e: DirEntry): Error
    requires !WellFormed(e)
  {
    match Classify(e.name)
    case Checksum(_) => if e.contents.Content? then MalformedChecksum(e.name) else ChecksumUnreadable(e.name)
    case Archive(_) => MalformedArchiveName(e.name)
  }

  /** One step succeeds exactly on a well-formed entry, and otherwise fails with that entry's error. */
  lemma StepSucceeds(index: map<string, Arch>, e: DirEntry, destinationURL: string)
    ensures Step(index, e, destinationURL).Success? <==> WellFormed(e)
    ensures !WellFormed(e) ==> Step(index, e, destinationURL) == Failure(EntryError(e))
  {
  }

  /** Every entry of the listing is well formed. */
  predicate AllWellFormed(entries: seq<DirEntry>) {
    forall i :: 0 <= i < |entries| ==> WellFormed(entries[i])
  }

  /** The scan of a listing succeeds exactly when every entry is well formed. */
  lemma {:induction false} ScanSucceeds(entries: seq<DirEntry>, destinationURL: string)
    ensures BuildIndex(entries, destinationURL).Success? <==> AllWellFormed(entries)
    decreases |entries|
  {
    if |entries| > 0 {
      var n := |entries|;
      var prefix, last := entries[..n - 1], entries[n - 1];
      ScanSucceeds(prefix, destinationURL);
      if AllWellFormed(entries) {
        WellFormedShrinks(entries, n - 1);
      }
      match BuildIndex(prefix, destinationURL)
      case Failure(_) =>
      case Success(before) =>
        StepSucceeds(before, last, destinationURL);
        if WellFormed(last) {
          WellFormedGrows(entries);
        }
    }
  }

  lemma WellFormedShrinks(entries: seq<DirEntry>, k: nat)
    requires k <= |entries| && AllWellFormed(entries)
    ensures AllWellFormed(entries[..k])
  {
    var prefix := entries[..k];
    forall i | 0 <= i < k
      ensures WellFormed(prefix[i])
    {
      assert prefix[i] == entries[i];
    }
  }

  lemma WellFormedGrows(entries: seq<DirEntry>)
    requires |entries| > 0
    requires AllWellFormed(entries[..|entries| - 1]) && WellFormed(entries[|entries| - 1])
    ensures AllWellFormed(entries)
  {
    var n := |entries|;
    var prefix := entries[..n - 1];
    forall i | 0 <= i < n
      ensures WellFormed(entries[i])
    {
      if i < n - 1 { assert entries[i] == prefix[i]; }
    }
  }

  /** A failing scan fails with the error of its first malformed entry. */
  lemma FirstMalformedEntry(entries: seq<DirEntry>, destinationURL: string, i: nat)
    requires i < |entries| && !WellFormed(entries[i])
    requires forall j :: 0 <= j < i ==> WellFormed(entries[j])
    ensures BuildIndex(entries, destinationURL) == Failure(EntryError(entries[i]))
  {
    var prefix := entries[..i];
    assert forall j :: 0 <= j < i ==> prefix[j] == entries[j];
    assert AllWellFormed(prefix);
    ScanSucceeds(prefix, destinationURL);
    var before := BuildIndex(prefix, destinationURL).value;
    BuildIndexExtends(entries, destinationURL, i, before);
    StepSucceeds(before, entries[i], destinationURL);
    FailureIsFinal(entries, destinationURL, i + 1);
  }

  /** A failure is final: once a prefix of the listing fails, the whole listing fails the same way. */
  lemma {:induction false} FailureIsFinal(entries: seq<DirEntry>, destinationURL: string, n: nat)
    requires n <= |entries|
    requires BuildIndex(entries[..n], destinationURL).Failure?
    ensures BuildIndex(entries, destinationURL) == BuildIndex(entries[..n], destinationURL)
    decreases |entries|
  {
    if n < |entries| {
      var prefix := entries[..|entries| - 1];
      assert prefix[..n] == entries[..n];
      FailureIsFinal(prefix, destinationURL, n);
    } else {
      assert entries[..n] == entries;
    }
  }

  /** The index holds one entry per identity key of the listing and no other. */
  lemma {:induction false} IndexKeys(entries: seq<DirEntry>, destinationURL: string)
    requires BuildIndex(entries, destinationURL).Success?
    ensures BuildIndex(entries, destinationURL).value.Keys == Keys(entries)
    decreases |entries|
  {
    if |entries| > 0 {
      var n := |entries|;
      var prefix, last := entries[..n - 1], entries[n - 1];
      IndexKeys(prefix, destinationURL);
      var before := BuildIndex(prefix, destinationURL).value;
      StepChangesOnlyItsKey(before, last, destinationURL, "");
      KeysOfPrefix(entries);
    }
  }

  lemma KeysOfPrefix(entries: seq<DirEntry>)
    requires |entries| > 0
    ensures var last := entries[|entries| - 1];
      Keys(entries) == Keys(entries[..|entries| - 1]) + (if KeyOf(last).Some? then {KeyOf(last).value} else {})
  {
    var n := |entries|;
    var prefix, last := entries[..n - 1], entries[n - 1];
    forall k | k in Keys(entries)
      ensures k in Keys(prefix) + (if KeyOf(last).Some? then {KeyOf(last).value} else {})
    {
      var i :| 0 <= i < n && KeyOf(entries[i]).Some? && KeyOf(entries[i]).value == k;
      if i < n - 1 { assert prefix[i] == entries[i]; }
    }
    forall k | k in Keys(prefix)
      ensures k in Keys(entries)
    {
      var i :| 0 <= i < n - 1 && KeyOf(prefix[i]).Some? && KeyOf(prefix[i]).value == k;
      assert entries[i] == prefix[i];
    }
  }

  /** An archive's entry carries its URL under the destination and the platform parsed from its name. */
  lemma {:induction false} ArchiveFields(entries: seq<DirEntry>, destinationURL: string, i: nat)
    requires DistinctNames(entries)
    requires i < |entries| && !entries[i].isDir && Classify(entries[i].name).Archive?
    requires BuildIndex(entries, destinationURL).Success?
    ensures var name := entries[i].name;
      var index := BuildIndex(entries, destinationURL).value;
      && name in index
      && index[name].url == destinationURL + "/" + name
      && ParseOsArch(OsArchSegment(name, Classify(name).suffix)) == Some(index[name].env)
    decreases |entries|
  {
    var n := |entries|;
    var prefix, last := entries[..n - 1], entries[n - 1];
    var before := BuildIndex(prefix, destinationURL).value;
    var name := entries[i].name;
    if i < n - 1 {
      assert prefix[i] == entries[i];
      ArchiveFields(prefix, destinationURL, i);
      assert last.name != name;
      StepChangesOnlyItsKey(before, last, destinationURL, name);
    }
  }

  /** A checksum file's digest is recorded in the entry of its key. */
  lemma {:induction false} ChecksumField(entries: seq<DirEntry>, destinationURL: string, i: nat)
    requires DistinctNames(entries)
    requires i < |entries| && !entries[i].isDir && Classify(entries[i].name).Checksum?
    requires BuildIndex(entries, destinationURL).Success?
    ensures var key := Classify(entries[i].name).key;
      var index := BuildIndex(entries, destinationURL).value;
      && entries[i].contents.Content?
      && key in index
      && Digest(entries[i].contents.text) == Some(index[key].sha256)
    decreases |entries|
  {
    var n := |entries|;
    var prefix, last := entries[..n - 1], entries[n - 1];
    var before := BuildIndex(prefix, destinationURL).value;
    var key := Classify(entries[i].name).key;
    if i < n - 1 {
      assert prefix[i] == entries[i];
      ChecksumField(prefix, destinationURL, i);
      assert last.name != entries[i].name;
      assert !IsChecksumFor(last, key);
      StepChangesOnlyItsKey(before, last, destinationURL, key);
    }
  }

  /** Without an archive named `key`, the entry of `key` has no URL and no platform. */
  lemma {:induction false} NoArchiveNoURL(entries: seq<DirEntry>, destinationURL: string, key: string)
    requires forall i :: 0 <= i < |entries| ==> !IsArchiveNamed(entries[i], key)
    requires BuildIndex(entries, destinationURL).Success?
    ensures Lookup(BuildIndex(entries, destinationURL).value, key).url == ""
    ensures Lookup(BuildIndex(entries, destinationURL).value, key).env == ArchEnv("", "")
    decreases |entries|
  {
    if |entries| > 0 {
      var n := |entries|;
      var prefix, last := entries[..n - 1], entries[n - 1];
      assert forall i :: 0 <= i < |prefix| ==> prefix[i] == entries[i];
      NoArchiveNoURL(prefix, destinationURL, key);
      StepChangesOnlyItsKey(BuildIndex(prefix, destinationURL).value, last, destinationURL, key);
    }
  }

  /** Without a checksum file for `key`, the entry of `key` has no digest. */
  lemma {:induction false} NoChecksumNoDigest(entries: seq<DirEntry>, destinationURL: string, key: string)
    requires forall i :: 0 <= i < |entries| ==> !IsChecksumFor(entries[i], key)
    requires BuildIndex(entries, destinationURL).Success?
    ensures Lookup(BuildIndex(entries, destinationURL).value, key).sha256 == ""
    decreases |entries|
  {
    if |entries| > 0 {
      var n := |entries|;
      var prefix, last := entries[..n - 1], entries[n - 1];
      assert forall i :: 0 <= i < |prefix| ==> prefix[i] == entries[i];
      NoChecksumNoDigest(prefix, destinationURL, key);
      StepChangesOnlyItsKey(BuildIndex(prefix, destinationURL).value, last, destinationURL, key);
    }
  }

  /**
   * An archive `name` and its checksum file `name.sha256`, listed in either
   * order, merge into one entry that has the URL, the platform and the digest.
   */
  lemma Pairing(entries: seq<DirEntry>, destinationURL: string, i: nat, j: nat)
    requires DistinctNames(entries)
    requires i < |entries| && !entries[i].isDir && Classify(entries[i].name).Archive?
    requires j < |entries| && !entries[j].isDir && entries[j].name == entries[i].name + ChecksumSuffix
    requires BuildIndex(entries, destinationURL).Success?
    ensures var name := entries[i].name;
      var index := BuildIndex(entries, destinationURL).value;
      && name in index
      && index[name].url == destinationURL + "/" + name
      && ParseOsArch(OsArchSegment(name, Classify(name).suffix)) == Some(index[name].env)
      && entries[j].contents.Content?
      && Digest(entries[j].contents.text) == Some(index[name].sha256)
  {
    ChecksumPairsWithArchive(entries[i].name, entries[i].contents, entries[j].contents);
    ArchiveFields(entries, destinationURL, i);
    ChecksumField(entries, destinationURL, j);
  }

  /**
   * A checksum file without its archive still yields an entry: the digest,
   * an empty URL and an empty platform. This is not an error.
   */
  lemma ChecksumOnly(entries: seq<DirEntry>, destinationURL: string, j: nat)
    requires DistinctNames(entries)
    requires j < |entries| && !entries[j].isDir && Classify(entries[j].name).Checksum?
    requires forall i :: 0 <= i < |entries| ==> !IsArchiveNamed(entries[i], Classify(entries[j].name).key)
    requires AllWellFormed(entries)
    ensures BuildIndex(entries, destinationURL).Success?
    ensures var key := Classify(entries[j].name).key;
      var index := BuildIndex(entries, destinationURL).value;
      && key in index
      && index[key].url == ""
      && index[key].env == ArchEnv("", "")
      && entries[j].contents.Content?
      && Digest(entries[j].contents.text) == Some(index[key].sha256)
  {
    var key := Classify(entries[j].name).key;
    ScanSucceeds(entries, destinationURL);
    ChecksumField(entries, destinationURL, j);
    NoArchiveNoURL(entries, destinationURL, key);
  }
}
