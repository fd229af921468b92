/**
 * Resolving the version of the build from the two marker files of the source
 * tree: a missing file stands for a caller-supplied default, an existing one
 * contributes only its first line.
 */
module Versions {
  import opened Wrappers
  import opened Strings
  import opened Manifest

  const VersionDefault := "main"
  const RevisionDefault := "1"

  /** Drops one trailing carriage return, as bufio.ScanLines does for each line. */
  function DropCR(s: string): (r: string)
    ensures HasSuffix(s, "\r") ==> r + "\r" == s
    ensures !HasSuffix(s, "\r") ==> r == s
  {
    if |s| > 0 && s[|s| - 1] == '\r' then s[..|s| - 1] else s
  }

  /**
   * The token the first Scan of a line scanner yields: the text up to the first
   * newline (or all of it), without one trailing carriage return; "" for an
   * empty file. The line is a newline-free prefix of the text, and what follows
   * it is nothing, a newline, or a carriage return ending the text or the line.
   */
  function FirstLine(text: string): (line: string)
    ensures '\n' !in line
    ensures HasPrefix(text, line)
    ensures var rest := text[|line|..];
      || rest == ""
      || rest[0] == '\n'
      || (rest[0] == '\r' && (|rest| == 1 || rest[1] == '\n'))
    ensures line != "" && line[|line| - 1] == '\r' ==> |line| < |text| && text[|line|] == '\r'
  {
    var i := IndexOf(text, '\n');
    if i == -1 then DropCR(text) else DropCR(text[..i])
  }

  /** A file's later lines never affect the first line, with LF or CRLF line ends. */
  lemma FirstLineIgnoresRest(line: string, rest: string)
    requires '\n' !in line
    requires line == "" || line[|line| - 1] != '\r'
    ensures FirstLine(line) == line
    ensures FirstLine(line + "\n" + rest) == line
    ensures FirstLine(line + "\r\n" + rest) == line
  {
    LineBeforeNewline(line, rest);
    LineBeforeNewline(line + "\r", rest);
    assert line + "\r" + "\n" + rest == line + "\r\n" + rest;
  }

  /** The first newline of `line + "\n" + rest` is the one after `line`. */
  lemma LineBeforeNewline(line: string, rest: string)
    requires '\n' !in line
    ensures IndexOf(line + "\n" + rest, '\n') == |line|
    ensures (line + "\n" + rest)[..|line|] == line
  {
    var t := line + "\n" + rest;
    assert t[|line|] == '\n' && t[..|line|] == line;
  }

  /**
   * getVersion: the default when the file does not exist, None when it cannot
   * be opened or read, and otherwise its first line.
   */
  function GetVersion(file: FileRead, default: string): (r: Option<string>)
    ensures file.Missing? ==> r == Some(default)
    ensures r.None? <==> file.Unreadable?
    ensures file.Content? ==> r == Some(FirstLine(file.text))
    ensures file.Content? ==> '\n' !in r.value && HasPrefix(file.text, r.value)
  {
    match file
    case Missing => Some(default)
    case Unreadable => None
    case Content(text) => Some(FirstLine(text))
  }

  /**
   * The version recorded in the manifest: the version marker's first line
   * without a leading "go", a dash, and the revision marker's first line.
   * Either marker being unreadable fails the summary, the version marker's
   * failure reported first.
   */
  function ResolveVersion(tree: BuildTree): (r: Result<string, Error>)
    ensures r.Failure? <==> tree.versionFile.Unreadable? || tree.revisionFile.Unreadable?
    ensures r.Failure? ==>
      r.error == if tree.versionFile.Unreadable? then VersionFileUnreadable else RevisionFileUnreadable
    ensures r.Success? ==>
      r.value == TrimPrefix(GetVersion(tree.versionFile, VersionDefault).value, "go") + "-"
                 + GetVersion(tree.revisionFile, RevisionDefault).value
  {
    match GetVersion(tree.versionFile, VersionDefault)
    case None => Failure(VersionFileUnreadable)
    case Some(version) =>
      match GetVersion(tree.revisionFile, RevisionDefault)
      case None => Failure(RevisionFileUnreadable)
      case Some(revision) => Success(TrimPrefix(version, "go") + "-" + revision)
  }

  /** Without marker files the version is "main-1". */
  lemma NoMarkerFiles(artifacts: Listing)
    ensures ResolveVersion(BuildTree(Missing, Missing, artifacts)) == Success("main-1")
  {
    assert "main"[..2][0] == 'm';
    assert "main" + "-" + "1" == "main-1";
  }

  /**
   * A release tree whose VERSION starts with the line "go" + v and whose
   * MICROSOFT_REVISION starts with the line rev gets the version v + "-" + rev,
   * whatever follows those lines.
   */
  lemma ReleaseVersion(v: string, vRest: string, rev: string, revRest: string, artifacts: Listing)
    requires '\n' !in v && (v == "" || v[|v| - 1] != '\r')
    requires '\n' !in rev && (rev == "" || rev[|rev| - 1] != '\r')
    ensures ResolveVersion(BuildTree(Content("go" + v + "\n" + vRest), Content(rev + "\n" + revRest), artifacts))
         == Success(v + "-" + rev)
  {
    GoLine(v);
    FirstLineIgnoresRest("go" + v, vRest);
    FirstLineIgnoresRest(rev, revRest);
  }

  /**
   * Each marker falls back to its own default: a tree with only a revision
   * marker gets "main-" + rev. A last line without a newline is the first line.
   */
  lemma OnlyRevisionMarker(rev: string, artifacts: Listing)
    requires '\n' !in rev && (rev == "" || rev[|rev| - 1] != '\r')
    ensures ResolveVersion(BuildTree(Missing, Content(rev), artifacts)) == Success("main-" + rev)
  {
    FirstLineIgnoresRest(rev, "");
    var r := ResolveVersion(BuildTree(Missing, Content(rev), artifacts));
    assert r == Success(TrimPrefix(VersionDefault, "go") + "-" + rev);
    DefaultVersionPrefix(rev);
  }

  /** The default version has no "go" to trim. */
  lemma DefaultVersionPrefix(rev: string)
    ensures TrimPrefix(VersionDefault, "go") + "-" + rev == "main-" + rev
  {
    assert VersionDefault[..2][0] == 'm';
    assert VersionDefault + "-" == "main-";
  }

  /** A tree with only a VERSION marker, "go" + v, gets v + "-1". */
  lemma OnlyVersionMarker(v: string, artifacts: Listing)
    requires '\n' !in v && (v == "" || v[|v| - 1] != '\r')
    ensures ResolveVersion(BuildTree(Content("go" + v), Missing, artifacts)) == Success(v + "-1")
  {
    GoLine(v);
    WholeFileIsLine("go" + v);
    var r := ResolveVersion(BuildTree(Content("go" + v), Missing, artifacts));
    assert r == Success(TrimPrefix("go" + v, "go") + "-" + RevisionDefault);
    assert v + "-" + RevisionDefault == v + "-1";
  }

  /** A file holding one line without a newline reads as that line. */
  lemma WholeFileIsLine(line: string)
    requires '\n' !in line && (line == "" || line[|line| - 1] != '\r')
    ensures GetVersion(Content(line), VersionDefault) == Some(line)
  {
    FirstLineIgnoresRest(line, "");
  }

  /** "go" + v is a single line that loses exactly its "go" to TrimPrefix. */
  lemma GoLine(v: string)
    requires '\n' !in v && (v == "" || v[|v| - 1] != '\r')
    ensures '\n' !in "go" + v && ("go" + v)[|"go" + v| - 1] != '\r'
    ensures TrimPrefix("go" + v, "go") == v
  {
    var line := "go" + v;
    assert forall i :: 2 <= i < |line| ==> line[i] == v[i - 2];
    if v != "" { assert line[|line| - 1] == v[|v| - 1]; }
    assert line[..2] == "go" && line[2..] == v;
  }

  /** The worked example: "go1.21.0" and revision "3" give "1.21.0-3". */
  lemma ExampleVersion(artifacts: Listing)
    ensures ResolveVersion(BuildTree(Content("go1.21.0\n"), Content("3\n"), artifacts)) == Success("1.21.0-3")
  {
    assert "go1.21.0\n" == "go" + "1.21.0" + "\n" + "";
    assert "3\n" == "3" + "\n" + "";
    assert "1.21.0" + "-" + "3" == "1.21.0-3";
    ReleaseVersion("1.21.0", "", "3", "", artifacts);
  }
}
