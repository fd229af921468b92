/**
 * The values the build-asset summary reads and produces: the manifest
 * (BuildAssets), its per-platform entries (Arch), the inputs that name the
 * build, and what the filesystem yields when the summary reads it.
 */
module Manifest {

  /** The platform of an artifact: GOOS and GOARCH. */
  datatype ArchEnv = ArchEnv(goos: string, goarch: string)

  /** One artifact of the build; any field may still be empty. */
  datatype Arch = Arch(url: string, sha256: string, env: ArchEnv)

  /** The zero-valued entry that get-or-create registers for a new key. */
  const EmptyArch := Arch("", "", ArchEnv("", ""))

  /** The root object of a build asset file. */
  datatype BuildAssets = BuildAssets(branch: string, buildID: string, version: string, arches: seq<Arch>)

  /** Where the build lives and what to record about it. */
  datatype BuildResultsDirectoryInfo = BuildResultsDirectoryInfo(
    sourceDir: string,
    artifactsDir: string,
    destinationURL: string,
    branch: string,
    buildID: string)

  /** What opening and reading one file yields: it does not exist, it cannot be read, or its text. */
  datatype FileRead = Missing | Unreadable | Content(text: string)

  /** One entry of a directory listing, with what reading it as a file would yield. */
  datatype DirEntry = DirEntry(name: string, isDir: bool, contents: FileRead)

  /** What listing the artifacts directory yields. */
  datatype Listing = Unlistable | Listed(entries: seq<DirEntry>)

  /**
   * The filesystem as the summary sees it: the two marker files under the
   * source directory ("VERSION" and "MICROSOFT_REVISION") and the listing of
   * the artifacts directory.
   */
  datatype BuildTree = BuildTree(versionFile: FileRead, revisionFile: FileRead, artifacts: Listing)

  /** Why a summary fails. Every failure aborts the whole summary. */
  datatype Error =
    | VersionFileUnreadable
    | RevisionFileUnreadable
    | DirectoryUnreadable
    | ChecksumUnreadable(name: string)
    | MalformedChecksum(name: string)
    | MalformedArchiveName(name: string)
}
