/**
 * Classifying the files of the artifacts directory and merging what they say
 * into one entry per artifact. This is the specification the summary's loop
 * is proved against: `BuildIndex` folds `Step` over the directory listing.
 */
module Artifacts {
  import opened Wrappers
  import opened Strings
  import opened Manifest

  const ChecksumSuffix := ".sha256"
  const ArchiveSuffixes: seq<string> := [".tar.gz", ".zip"]

  /** What a file is: a checksum of the artifact `key`, an archive matched by `suffix`, or neither. */
  datatype Kind = Checksum(key: string) | Archive(suffix: string) | Ignored

  /** The position of the first suffix in `suffixes` that `name` ends with, or |suffixes|. */
  function FirstSuffixIndex(name: string, suffixes: seq<string>): (i: nat)
    ensures i <= |suffixes|
    ensures i < |suffixes| ==> HasSuffix(name, suffixes[i])
    ensures forall j :: 0 <= j < i ==> !HasSuffix(name, suffixes[j])
  {
    if |suffixes| == 0 || HasSuffix(name, suffixes[0]) then 0
    else 1 + FirstSuffixIndex(name, suffixes[1..])
  }

  /**
   * The checksum suffix is tested first; then the archive suffixes in order,
   * the first that matches winning.
   */
  function Classify(name: string): (k: Kind)
    ensures k.Checksum? <==> HasSuffix(name, ChecksumSuffix)
    ensures k.Checksum? ==> k.key + ChecksumSuffix == name
    ensures k.Archive? ==> k.suffix in ArchiveSuffixes && HasSuffix(name, k.suffix)
    ensures k.Archive? && k.suffix == ".zip" ==> !HasSuffix(name, ".tar.gz")
    ensures k.Ignored? <==>
      !HasSuffix(name, ChecksumSuffix) && !HasSuffix(name, ".tar.gz") && !HasSuffix(name, ".zip")
  {
    if HasSuffix(name, ChecksumSuffix) then Checksum(TrimSuffix(name, ChecksumSuffix))
    else
      var i := FirstSuffixIndex(name, ArchiveSuffixes);
      assert i == |ArchiveSuffixes| ==> !HasSuffix(name, ArchiveSuffixes[0]) && !HasSuffix(name, ArchiveSuffixes[1]);
      if i < |ArchiveSuffixes| then Archive(ArchiveSuffixes[i]) else Ignored
  }

  /**
   * The identity key under which an entry is merged: a checksum file's name
   * without ".sha256", an archive's full name; directories and other files
   * have none.
   */
  function KeyOf(e: DirEntry): (key: Option<string>)
    ensures key.Some? ==> !e.isDir && !Classify(e.name).Ignored?
    ensures !e.isDir && Classify(e.name).Checksum? ==> key == Some(Classify(e.name).key)
    ensures !e.isDir && Classify(e.name).Archive? ==> key == Some(e.name)
  {
    if e.isDir then None
    else match Classify(e.name)
      case Checksum(key) => Some(key)
      case Archive(_) => Some(e.name)
      case Ignored => None
  }

  /** An archive and its checksum file are merged under one key: the archive's name. */
  lemma {:induction false} ChecksumPairsWithArchive(archive: string, a: FileRead, c: FileRead)
    requires Classify(archive).Archive?
    ensures Classify(archive + ChecksumSuffix) == Checksum(archive)
    ensures KeyOf(DirEntry(archive, false, a)) == KeyOf(DirEntry(archive + ChecksumSuffix, false, c)) == Some(archive)
  {
    var name := archive + ChecksumSuffix;
    assert name[|name| - |ChecksumSuffix|..] == ChecksumSuffix;
    assert TrimSuffix(name, ChecksumSuffix) == archive;
    assert !HasSuffix(archive, ChecksumSuffix) by {
      var s := Classify(archive).suffix;
      assert s == ".tar.gz" || s == ".zip";
      assert archive[|archive| - 1] == s[|s| - 1];
    }
  }

  /** The text between the last '.' and the archive suffix: "{GOOS}-{GOARCH}" by convention. */
  function OsArchSegment(name: string, suffix: string): (segment: string)
    ensures '.' !in segment
    ensures var stem := TrimSuffix(name, suffix);
      HasSuffix(stem, segment) && (|segment| == |stem| || stem[|stem| - |segment| - 1] == '.')
  {
    var stem := TrimSuffix(name, suffix);
    stem[LastIndexOf(stem, '.') + 1..]
  }

  /**
   * Splits the segment on '-' and takes the first two pieces as GOOS and
   * GOARCH; None where the segment has no '-', the case the source indexes
   * out of range on. Any further pieces are dropped.
   */
  function ParseOsArch(segment: string): (r: Option<ArchEnv>)
    ensures r.None? <==> '-' !in segment
    ensures r.Some? ==>
      && '-' !in r.value.goos && '-' !in r.value.goarch
      && HasPrefix(segment, r.value.goos + "-" + r.value.goarch)
      && var rest := segment[|r.value.goos| + 1 + |r.value.goarch|..];
         rest == "" || rest[0] == '-'
  {
    var parts := Split(segment, '-');
    if |parts| < 2 then None
    else
      assert segment == parts[0] + "-" + Join(parts[1..], '-');
      assert |parts| > 2 ==> Join(parts[1..], '-') == parts[1] + "-" + Join(parts[2..], '-');
      Some(ArchEnv(parts[0], parts[1]))
  }

  /** The digest recorded from a checksum file: its first field; None when it has none. */
  function Digest(text: string): (d: Option<string>)
    ensures d.None? <==> AllSpace(text)
    ensures d.Some? ==> d.value != "" && NoSpace(d.value)
  {
    var fields := Fields(text);
    if |fields| == 0 then None else Some(fields[0])
  }

  /** The digest is the first word of the checksum line, e.g. "abc123" of "abc123  go.tar.gz". */
  lemma DigestIsFirstWord(lead: string, word: string, rest: string)
    requires AllSpace(lead) && word != "" && NoSpace(word)
    requires rest == "" || IsSpace(rest[0])
    ensures Digest(lead + word + rest) == Some(word)
  {
    FirstField(lead, word, rest);
  }

  /** getOrCreateArch, read only: the entry for `key`, or the zero entry it would create. */
  function Lookup(index: map<string, Arch>, key: string): Arch {
    if key in index then index[key] else EmptyArch
  }

  /**
   * What one directory entry does to the index: directories and unrecognised
   * files nothing; a checksum file sets the digest of its key, an archive
   * the URL and platform of its own name; or the summary fails.
   */
  function Step(index: map<string, Arch>, e: DirEntry, destinationURL: string): Result<map<string, Arch>, Error> {
    if e.isDir then Success(index)
    else match Classify(e.name)
      case Ignored => Success(index)
      case Checksum(key) =>
        if !e.contents.Content? then Failure(ChecksumUnreadable(e.name))
        else (
          match Digest(e.contents.text)
          case None => Failure(MalformedChecksum(e.name))
          case Some(digest) => Success(index[key := Lookup(index, key).(sha256 := digest)]))
      case Archive(suffix) =>
        match ParseOsArch(OsArchSegment(e.name, suffix))
        case None => Failure(MalformedArchiveName(e.name))
        case Some(env) =>
          Success(index[e.name := Lookup(index, e.name).(url := destinationURL + "/" + e.name, env := env)])
  }

  /** The index after processing `entries` in order, or the first failure. */
  function BuildIndex(entries: seq<DirEntry>, destinationURL: string): Result<map<string, Arch>, Error>
    decreases |entries|
  {
    if |entries| == 0 then Success(map[])
    else match BuildIndex(entries[..|entries| - 1], destinationURL)
      case Failure(err) => Failure(err)
      case Success(index) => Step(index, entries[|entries| - 1], destinationURL)
  }

  /** Names in a directory listing are distinct. */
  ghost predicate DistinctNames(entries: seq<DirEntry>) {
    forall i, j :: 0 <= i < j < |entries| ==> entries[i].name != entries[j].name
  }

  /** The identity keys of the entries that contribute to the index. */
  ghost function Keys(entries: seq<DirEntry>): set<string> {
    set i | 0 <= i < |entries| && KeyOf(entries[i]).Some? :: KeyOf(entries[i]).value
  }
}
