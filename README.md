# Build-asset summary, modelled in Dafny

This project models the `buildassets` package of the Microsoft build of Go's
build tooling. After a toolchain build, `CreateSummary` condenses what the
build produced into one manifest (`BuildAssets`) that the Docker-image
auto-update pipeline consumes. The manifest holds the branch, the build ID,
a version string and one entry per platform artifact. Each entry carries a
URL, a platform (GOOS, GOARCH) and a SHA-256 digest.

The model covers:

- **Branch mapping** (`BranchMapping`). `GetDockerRepoTargetBranch` picks
  the Docker repository branch that a build of a given Go branch updates.
- **Version resolution** (`Versions`).
  - `getVersion` returns the default for a missing marker file, fails for
    an unreadable one, and otherwise returns the file's first line as a line
    scanner yields it.
  - The composed version is the VERSION line without a leading `go`, a dash,
    and the MICROSOFT_REVISION line. The defaults are `main` and `1`.
- **Artifact classification and merging** (`Artifacts`, `IndexFacts`).
  - A `.sha256` file is tested first. Then `.tar.gz` and `.zip` are tried in
    order.
  - A checksum file contributes the first whitespace-separated field of its
    text to the entry of its name minus `.sha256`.
  - An archive contributes a URL (`destination + "/" + name`) and the
    platform parsed from its name to the entry of its full name.
  - `BuildIndex` folds one `Step` per directory entry over the listing. It is
    the specification that the imperative loop is proved against. The lemmas
    in `IndexFacts` are stated about it, for a listing in any order:
    get-or-create, pairing, field ownership, key set, and failure is final.
- **Ordering** (`ArchOrder`). The flattened entries are sorted in place by
  URL under Go's string `<`, which is `Less` in `Strings`.
- **The summary itself** (`Summary`).
  - A class `ArchIndex` stands for `archMap` and its `getOrCreateArch`
    closure.
  - The method `CreateSummary` follows the Go function step by step: it reads
    the marker files, skips the scan when `ArtifactsDir` is empty, runs the
    per-entry loop with its suffix loop, flattens the map in an unspecified
    order, and sorts.
- **Go strings** (`Strings`). The parts of Go's `strings` package the code
  uses: `HasPrefix`, `HasSuffix`, `TrimPrefix`, `TrimSuffix`, `LastIndex`,
  `Split`, and `Fields` with `unicode.IsSpace`.

The filesystem is an input value (`BuildTree`):

- Each marker file is `Missing`, `Unreadable` or `Content(text)`.
- The artifacts directory is `Unlistable` or a listing of entries, each with
  its name, its directory flag and what reading it would give.

The Go code panics in two places: indexing the checksum's `Fields(...)[0]`
(line 128) and `osArchParts[1]` (line 139). The model turns both into
explicit errors, `MalformedChecksum` and `MalformedArchiveName`. Every other
error of the code is an `Error` value too, carrying its kind but not its
message text.

In three places the code does something other than a reader of the tool's
documentation might expect. The model follows the code:

- **Platform parsing.** One might expect the platform segment to split into
  exactly two dash-separated parts. The code takes the first two pieces
  and drops the rest. So `go.linux-arm-v6.tar.gz` gives GOOS `linux` and
  GOARCH `arm`, and only a segment with no `-` at all fails
  (`Artifacts.ParseOsArch`).
- **Determinism.** One might expect re-runs to give byte-identical
  manifests. The code sorts with `sort.Slice`, which is not stable, over
  entries taken from a Go map, whose iteration order is random. The output
  is determined only when no two different entries share a URL.
  - `ArchOrder.SortedUnique` proves that any two sorted arrangements of the
    same entries are equal when no two different entries share a URL.
  - `Summary.ValuesInAnyOrder` proves that every order of the map's keys
    gives up the same entries, and `Summary.OutputIndependentOfMapOrder`
    combines the two: under that condition any two manifests CreateSummary
    may produce for the same build are equal.
  - `ArchOrder.EqualURLsLeaveOrderOpen` shows two entries with equal URLs
    sorted both ways round. This happens for two checksum files whose
    archives are missing: both entries have the empty URL.
- **First line.** Not only the trailing newline is stripped:
  `bufio.ScanLines` also drops one carriage return before it, and
  the model does the same (`Versions.FirstLine`).

## Model

| member | source | states |
|---|---|---|
| BranchMapping.DockerRepoTargetBranch | buildmodel/buildassets/buildassets.go:40-48 | "microsoft/main" exactly for "main" and "release-branch." branches; the branch itself exactly for "dev/official/" branches; "" exactly for every other branch |
| BranchMapping.TargetIsMainOrOfficial | buildmodel/buildassets/buildassets.go:40-48 | a non-empty target is "microsoft/main" or a "dev/official/" branch |
| BranchMapping.Examples | buildmodel/buildassets/buildassets.go:40-48 | the mapping on main, a release branch, an official dev branch, a feature branch and "microsoft/main" itself |
| Strings.TrimPrefix | buildmodel/buildassets/buildassets.go:91 | removes the prefix once when present (prefix + result is the input), otherwise leaves the string |
| Strings.HasPrefix | buildmodel/buildassets/buildassets.go:40-43 | definition: the string begins with the prefix (`strings.HasPrefix`); used by the branch mapping |
| Strings.HasSuffix | buildmodel/buildassets/buildassets.go:120-133 | definition: the string ends with the suffix (`strings.HasSuffix`); used to classify file names |
| Strings.TrimSuffix | buildmodel/buildassets/buildassets.go:122 | removes the suffix once when present (result + suffix is the input), otherwise leaves the string |
| Strings.LastIndexOf | buildmodel/buildassets/buildassets.go:137 | -1 exactly when the character is absent; otherwise a position holding it with none after it |
| Strings.IndexOf | buildmodel/buildassets/buildassets.go:185-186 | -1 exactly when the character is absent; otherwise the first position holding it |
| Strings.Split | buildmodel/buildassets/buildassets.go:138 | at least one piece; no piece holds the separator; joining the pieces with it gives the input back; one piece exactly when the separator is absent |
| Strings.Fields | buildmodel/buildassets/buildassets.go:128 | every field is non-empty and space-free; no fields exactly when the text is all space |
| Strings.FieldsKeepText | buildmodel/buildassets/buildassets.go:128 | the fields, concatenated, are the text with its spaces removed: nothing is lost or reordered |
| Strings.FirstField | buildmodel/buildassets/buildassets.go:128 | after leading space, a word ended by space or by the end of the text is the first field |
| Strings.WordEnd | buildmodel/buildassets/buildassets.go:128 | a field runs from the first non-space character to just before the next space or the end |
| Strings.SpanStops | buildmodel/buildassets/buildassets.go:128 | a run of like characters stopped by the end or by a change of kind is the whole leading span |
| Strings.IsSpace | buildmodel/buildassets/buildassets.go:128 | definition: the white-space test `unicode.IsSpace` that `strings.Fields` splits on: '\t' to '\r', ' ', U+0085, U+00A0 and the other Unicode white-space characters |
| Strings.Less | buildmodel/buildassets/buildassets.go:159-161 | definition: Go's string `<`, lexicographic with a proper prefix first; its order properties are the lemmas below |
| Strings.LessTotal | buildmodel/buildassets/buildassets.go:159-161 | Go's string `<` compares any two distinct strings one way or the other |
| Strings.LessTransitive | buildmodel/buildassets/buildassets.go:159-161 | Go's string `<` is transitive |
| Strings.LessAsymmetric | buildmodel/buildassets/buildassets.go:159-161 | Go's string `<` never holds both ways |
| Strings.LessIrreflexive | buildmodel/buildassets/buildassets.go:159-161 | no string is `<` itself |
| Strings.LessEqTransitive | buildmodel/buildassets/buildassets.go:159-161 | "not greater" is transitive, so the sort key is a total preorder |
| Strings.EmptyIsLeast | buildmodel/buildassets/buildassets.go:159-161 | the empty URL is at most every URL and no non-empty URL is at most it |
| Versions.DropCR | buildmodel/buildassets/buildassets.go:185-190 | a token ending in a carriage return loses exactly that one character; any other token is returned unchanged |
| Versions.FirstLine | buildmodel/buildassets/buildassets.go:185-190 | the first scanned line holds no newline, starts the text, and is followed by nothing, a newline, or a carriage return that ends the text or precedes a newline; a line still ending in a carriage return is followed in the text by another one |
| Versions.FirstLineIgnoresRest | buildmodel/buildassets/buildassets.go:171-190 | a line alone, followed by LF, or followed by CRLF, is the first line whatever comes after it |
| Versions.LineBeforeNewline | buildmodel/buildassets/buildassets.go:185-190 | the first newline of line + "\n" + rest is the one right after the line |
| Versions.GetVersion | buildmodel/buildassets/buildassets.go:175-191 | the default for a missing file; a failure exactly for an unreadable one; otherwise the first line of the content, a newline-free prefix of it |
| Versions.ResolveVersion | buildmodel/buildassets/buildassets.go:81-91 | fails exactly when either marker file is unreadable, the VERSION failure reported first; otherwise the VERSION line without its "go" prefix, "-", and the revision line |
| Versions.NoMarkerFiles | buildmodel/buildassets/buildassets.go:81-91 | with neither marker file the version is "main-1" |
| Versions.ReleaseVersion | buildmodel/buildassets/buildassets.go:81-91 | a VERSION whose first line is "go" + v and a revision line rev give v + "-" + rev, whatever follows those lines |
| Versions.GoLine | buildmodel/buildassets/buildassets.go:91 | TrimPrefix of "go" + v is v, and "go" + v stays a single line |
| Versions.OnlyRevisionMarker | buildmodel/buildassets/buildassets.go:81-91 | with only a revision file holding rev the version is "main-" + rev |
| Versions.DefaultVersionPrefix | buildmodel/buildassets/buildassets.go:81-91 | the default VERSION "main" carries no "go" prefix to trim |
| Versions.OnlyVersionMarker | buildmodel/buildassets/buildassets.go:81-91 | with only a VERSION file "go" + v, with no newline and no trailing carriage return, the version is v + "-1" |
| Versions.WholeFileIsLine | buildmodel/buildassets/buildassets.go:175-190 | a readable file with no newline and no trailing carriage return is its own first line |
| Versions.ExampleVersion | buildmodel/buildassets/buildassets.go:81-91 | "go1.21.0\n" with revision "3\n" gives "1.21.0-3" |
| Artifacts.Lookup | buildmodel/buildassets/buildassets.go:97-102 | definition: the entry registered for a key, or the zero-valued entry get-or-create would register |
| Artifacts.Step | buildmodel/buildassets/buildassets.go:112-149 | definition: one iteration of the directory loop over the index, or its failure; its properties are the `IndexFacts` lemmas and it is what `Summary.MergeEntry` is proved equal to |
| Artifacts.BuildIndex | buildmodel/buildassets/buildassets.go:111-150 | definition: the directory loop as a fold of `Step` over the listing, stopping at the first failure; `Summary.ScanEntries` is proved equal to it and `IndexFacts` states what it computes |
| Artifacts.FirstSuffixIndex | buildmodel/buildassets/buildassets.go:132-133 | the position of the first suffix the name ends with; no earlier suffix matches |
| Artifacts.Classify | buildmodel/buildassets/buildassets.go:120-133 | checksum exactly when the name ends in ".sha256", keyed by the name without it; otherwise an archive suffix the name ends with, ".tar.gz" before ".zip"; ignored exactly when no suffix matches |
| Artifacts.KeyOf | buildmodel/buildassets/buildassets.go:112-141 | only non-directory checksum and archive files have a merge key: a checksum file's key is its name without ".sha256", an archive's key its full name |
| Artifacts.ChecksumPairsWithArchive | buildmodel/buildassets/buildassets.go:120-141 | an archive and archive + ".sha256" merge under the same key, the archive's name |
| Artifacts.OsArchSegment | buildmodel/buildassets/buildassets.go:136-137 | the segment holds no '.', ends the suffix-less name and is preceded by a '.' or is the whole of it |
| Artifacts.ParseOsArch | buildmodel/buildassets/buildassets.go:138-139 | no platform exactly when the segment has no '-'; otherwise GOOS and GOARCH are dash-free and the segment starts with GOOS-GOARCH followed by nothing or by '-' |
| Artifacts.Digest | buildmodel/buildassets/buildassets.go:128 | no digest exactly when the checksum text is all space; otherwise a non-empty space-free word |
| Artifacts.DigestIsFirstWord | buildmodel/buildassets/buildassets.go:128 | the digest of a "<hash>  <file>" line is the hash |
| IndexFacts.IgnoredEntryAddsNothing | buildmodel/buildassets/buildassets.go:111-149 | directories and files matching no suffix leave the index unchanged |
| IndexFacts.StepChangesOnlyItsKey | buildmodel/buildassets/buildassets.go:96-103 | get-or-create: a step adds at most its own key, leaves other entries alone, and changes only the fields its file kind owns |
| IndexFacts.ChecksumStep | buildmodel/buildassets/buildassets.go:120-129 | a checksum step touches only the digest of its key |
| IndexFacts.ArchiveStep | buildmodel/buildassets/buildassets.go:132-147 | an archive step touches only the URL and platform of its name |
| IndexFacts.LookupUpdate | buildmodel/buildassets/buildassets.go:96-103 | updating one key leaves every other key's entry as it was |
| IndexFacts.BuildIndexExtends | buildmodel/buildassets/buildassets.go:111-150 | one more loop iteration over a successful prefix is one more step |
| IndexFacts.WellFormed | buildmodel/buildassets/buildassets.go:120-139 | definition: an entry the loop gets past: a directory, an ignored file, a readable checksum file with a field, or an archive whose platform segment holds a '-' |
| IndexFacts.EntryError | buildmodel/buildassets/buildassets.go:125-139 | definition: the error a malformed entry stops the loop with: unreadable checksum file (line 126), blank checksum text (line 128, a panic in Go), platform without '-' (line 139, a panic in Go) |
| IndexFacts.StepSucceeds | buildmodel/buildassets/buildassets.go:111-149 | one step succeeds exactly when its entry is well formed (a directory, an ignored file, a readable non-blank checksum file, an archive whose platform segment holds a '-'), and otherwise fails with that entry's error |
| IndexFacts.ScanSucceeds | buildmodel/buildassets/buildassets.go:111-150 | the scan succeeds exactly when every entry of the listing is well formed |
| IndexFacts.WellFormedShrinks | buildmodel/buildassets/buildassets.go:111-150 | every entry of a well-formed listing's prefix is well formed |
| IndexFacts.WellFormedGrows | buildmodel/buildassets/buildassets.go:111-150 | a well-formed prefix followed by a well-formed entry is a well-formed listing |
| IndexFacts.FirstMalformedEntry | buildmodel/buildassets/buildassets.go:111-150 | the scan fails with the error of the first malformed entry |
| IndexFacts.FailureIsFinal | buildmodel/buildassets/buildassets.go:111-150 | once a prefix of the listing fails, the whole scan fails with that same error |
| IndexFacts.IndexKeys | buildmodel/buildassets/buildassets.go:95-150 | the index has exactly one entry per merge key of the listing |
| IndexFacts.KeysOfPrefix | buildmodel/buildassets/buildassets.go:111-150 | the keys of a listing are those of all but its last entry plus the last entry's key |
| IndexFacts.ArchiveFields | buildmodel/buildassets/buildassets.go:136-146 | every archive's entry has URL destination + "/" + name and the platform parsed from its name |
| IndexFacts.ChecksumField | buildmodel/buildassets/buildassets.go:120-129 | every checksum file was readable and its first field is the digest of its key's entry |
| IndexFacts.NoArchiveNoURL | buildmodel/buildassets/buildassets.go:141-146 | without an archive of that name an entry's URL and platform stay empty |
| IndexFacts.NoChecksumNoDigest | buildmodel/buildassets/buildassets.go:120-129 | without a checksum file for a key its entry's digest stays empty |
| IndexFacts.Pairing | buildmodel/buildassets/buildassets.go:120-146 | an archive and its ".sha256" file, in either order, make one entry with URL, platform and digest |
| IndexFacts.ChecksumOnly | buildmodel/buildassets/buildassets.go:120-129 | in a well-formed listing a checksum file without its archive makes the scan succeed and still yields an entry: its digest, no URL, no platform |
| ArchOrder.SortByURL | buildmodel/buildassets/buildassets.go:158-161 | the entries end up ascending by URL and are a permutation of the entries before |
| ArchOrder.InsertDown | buildmodel/buildassets/buildassets.go:158-161 | one insertion step extends the sorted prefix by one element and keeps the multiset |
| ArchOrder.Swap | buildmodel/buildassets/buildassets.go:158-161 | exchanging two elements changes only those two places and keeps the multiset |
| ArchOrder.SwapDown | buildmodel/buildassets/buildassets.go:158-161 | moving the inserted element down one place keeps both sorted runs |
| ArchOrder.Joined | buildmodel/buildassets/buildassets.go:158-161 | two sorted runs joined where the inserted element stopped form one sorted run |
| ArchOrder.SortedIsOrdered | buildmodel/buildassets/buildassets.go:158-161 | in a sorted manifest every earlier URL is at most every later one |
| ArchOrder.EmptyURLsFirst | buildmodel/buildassets/buildassets.go:158-161 | entries without a URL come before every entry with one |
| ArchOrder.LessEqAntisymmetric | buildmodel/buildassets/buildassets.go:159-161 | two URLs each at most the other are equal |
| ArchOrder.SortedUnique | buildmodel/buildassets/buildassets.go:158-161 | any two sorted arrangements of the same entries are equal when no two different entries share a URL |
| ArchOrder.SmallestFirst | buildmodel/buildassets/buildassets.go:158-161 | two sorted arrangements of entries with distinct URLs start with the same entry |
| ArchOrder.TailsAlike | buildmodel/buildassets/buildassets.go:158-161 | dropping that common first entry leaves sorted arrangements of the same entries |
| ArchOrder.MultisetTail | buildmodel/buildassets/buildassets.go:158-161 | removing the same first element from equal multisets leaves equal multisets |
| ArchOrder.SortedTail | buildmodel/buildassets/buildassets.go:158-161 | the tail of a sorted manifest is sorted |
| ArchOrder.EqualURLsLeaveOrderOpen | buildmodel/buildassets/buildassets.go:158-161 | two different entries with the same URL are sorted in both orders, so the output order is open |
| Summary.ArchIndex.constructor | buildmodel/buildassets/buildassets.go:95 | the artifact map starts empty |
| Summary.ArchIndex.GetOrCreate | buildmodel/buildassets/buildassets.go:96-103 | returns the existing entry, or registers and returns a zero entry; no other key changes |
| Summary.ArchIndex.SetDigest | buildmodel/buildassets/buildassets.go:128 | only the digest of that key's entry changes |
| Summary.ArchIndex.SetArchive | buildmodel/buildassets/buildassets.go:142-146 | only the URL and platform of that key's entry change |
| Summary.ArchIndex.Values | buildmodel/buildassets/buildassets.go:153-156 | as many values as map entries, holding exactly the map's values, each key taken once in an order the map does not fix |
| Summary.ValuesAt | buildmodel/buildassets/buildassets.go:154-156 | the i-th appended value is the entry at the i-th key taken |
| Summary.ValuesCover | buildmodel/buildassets/buildassets.go:154-156 | values taken at keys covering the map are exactly the map's values |
| Summary.FirstMatch | buildmodel/buildassets/buildassets.go:132-133 | the suffix the loop breaks at is the first matching one |
| Summary.MatchedArchiveStep | buildmodel/buildassets/buildassets.go:136-146 | a parsed archive name sets its entry's URL and platform |
| Summary.ScanOutcome | buildmodel/buildassets/buildassets.go:111-150 | with an artifacts directory, the scan succeeds exactly when every entry is well formed, and otherwise fails with the first malformed entry's error |
| Summary.ValuesInAnyOrder | buildmodel/buildassets/buildassets.go:153-156 | any two orders that take every key of the map once give up the same multiset of entries |
| Summary.DistinctCount | buildmodel/buildassets/buildassets.go:153-156 | a key occurs at most once in an order without repeats |
| Summary.ValuesInPermuted | buildmodel/buildassets/buildassets.go:153-156 | the entries given up depend only on the multiset of keys taken, not on their order |
| Summary.RemoveMatching | buildmodel/buildassets/buildassets.go:153-156 | taking the same key off two equal multisets of keys leaves equal multisets |
| Summary.ValuesInAround | buildmodel/buildassets/buildassets.go:153-156 | the entries of an order are those without its j-th key plus that key's entry |
| Summary.ValuesInAppend | buildmodel/buildassets/buildassets.go:153-156 | taking two runs of keys one after the other gives up their entries in that order |
| Summary.Summarizes | buildmodel/buildassets/buildassets.go:80-169 | definition: a manifest CreateSummary may produce for a given map order: branch and build ID copied, the resolved version, and the index's entries once each, sorted by URL |
| Summary.OutputIndependentOfMapOrder | buildmodel/buildassets/buildassets.go:153-161 | when no two different entries of the index share a URL, any two manifests CreateSummary may produce for the same build are equal, whatever order the map gave up its keys in |
| Summary.CreateSummary | buildmodel/buildassets/buildassets.go:80-169 | fails exactly when version resolution or the scan fails, version errors first; otherwise branch and build ID copied, the composed version, the index's entries each once (as many as the listing has distinct keys), sorted by URL; an empty ArtifactsDir gives no entries |
| Summary.ScanEntries | buildmodel/buildassets/buildassets.go:111-150 | the loop leaves exactly the index the listing specifies, or the first failure of the listing |
| Summary.MergeEntry | buildmodel/buildassets/buildassets.go:112-149 | one loop iteration performs exactly one step of the specification, or its failure |
| Summary.MergeChecksum | buildmodel/buildassets/buildassets.go:119-130 | a checksum file performs its step: the digest of its key, or its read or format failure |
| Summary.MergeArchive | buildmodel/buildassets/buildassets.go:132-149 | the suffix loop performs the archive step for the first matching suffix, or nothing when none matches |
| Summary.MergeMatchedArchive | buildmodel/buildassets/buildassets.go:134-147 | an archive matched by a suffix performs its step: URL and platform, or the malformed-name failure |
| Summary.RecordArchive | buildmodel/buildassets/buildassets.go:141-146 | get-or-create then set URL and platform leaves exactly one changed entry |

## Left out

- Filesystem access (`os.Open`, `os.ReadFile`, `os.ReadDir`, `path.Join`) is not modelled. The files are an input value, `BuildTree`. A file that cannot be opened and one whose read fails are both `Unreadable`.
- `os.ReadDir` returns entries sorted by name. The model accepts a listing in any order, and its lemmas hold for every order.
- The progress message printed for each artifact (line 115) is left out, as it is output only.
- Error messages and wrapped causes are reduced to the error's kind.
- JSON field tags and the `dockerversions` package are not part of this model. `Arch` and `ArchEnv` are local records with the same fields.
- Versions.GetVersion: does not model bufio.Scanner's 64 KiB token limit. A longer first line is returned instead of failing.
- Strings.Fields: works on characters, not on Go's bytes, and so do `HasPrefix`, `HasSuffix`, `LastIndexOf`, `Split`, `IndexOf` and `Less`. They agree with Go only on valid UTF-8: invalid UTF-8 in file names, in the marker files and in checksum files is not modelled.
- `*Arch` pointers in the map are modelled as values updated in the map at their key. Each key had its own object, so there is no aliasing to lose.
- ArchOrder.SortByURL: the sorting algorithm of `sort.Slice` is replaced by an insertion sort. The contract is the same (ascending by URL, a permutation), but which of several entries with equal URLs comes first is not tied to Go's algorithm.
- Summary.ArchIndex.Values: Go's randomised map iteration order is modelled as an arbitrary choice. No particular order is modelled.
- Summary.CreateSummary: after a failure, the index state (where Go registers an entry before reading the checksum file) is not stated, because the caller discards it.
