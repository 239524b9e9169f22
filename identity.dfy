/**
 * Artifact identity: the NameVersion, CategoryNameVersion and M2Artifact value
 * classes of Repackage.java, the "branch" (major.minor) derived from a version,
 * and the Maven repository layout conventions of M2ConventionsUtils.
 */
module Identity {
  import opened Wrappers
  import opened JavaText

  /** A name and a version; the version is null until it is known. */
  datatype NameVersion = NameVersion(name: string, version: Option<string>)

  const VersionDirective: string := ";version="

  /**
   * Interprets "my.module.name;version=0.0.0": everything before the first
   * ";version=" is the name and everything after it the version; without the
   * directive the whole string is the name and there is no version.
   */
  function ParseNameVersion(s: string): (nv: NameVersion)
    ensures !Contains(s, VersionDirective) <==> nv.version.None?
    ensures nv.version.None? ==> nv.name == s
    ensures nv.version.Some? ==> s == nv.name + VersionDirective + nv.version.value
    ensures forall j :: !OccursAt(nv.name, VersionDirective, j)
  {
    var index := IndexOf(s, VersionDirective);
    if index < 0 then NameVersion(s, None)
    else
      var name := s[..index];
      assert s == name + VersionDirective + s[index + |VersionDirective|..] by {
        assert s[index..index + |VersionDirective|] == VersionDirective;
      }
      forall j | 0 <= j && j + |VersionDirective| <= |name|
        ensures !OccursAt(name, VersionDirective, j)
      {
        assert name[j..j + |VersionDirective|] == s[j..j + |VersionDirective|];
        assert !OccursAt(s, VersionDirective, j);
      }
      NameVersion(name, Some(s[index + |VersionDirective|..]))
  }

  /** A name without directives printed with its version parses back to the same pair. */
  lemma NameVersionRoundTrip(name: string, version: string)
    requires ';' !in name
    ensures ParseNameVersion(name + VersionDirective + version) == NameVersion(name, Some(version))
  {
    IndexOfAfterPlainPrefix(name, VersionDirective, version);
    var s := name + VersionDirective + version;
    assert s[..|name|] == name;
    assert s[|name| + |VersionDirective|..] == version;
  }

  /**
   * NameVersion.getBranch: the first two components of the dot-split version,
   * joined by a dot. A null version fails with a NullPointerException and a
   * version with fewer than two components (after Java's split has dropped
   * trailing empty components) with an IllegalStateException.
   */
  function Branch(version: Option<string>): (r: Result<string, Failure>)
    ensures version.None? ==> r.Failure? && r.error.NullPointer?
    ensures version.Some? && |Split(version.value, '.')| < 2 ==>
      r == Failure(IllegalState("Version " + version.value + " cannot be interpreted as branch."))
    ensures r.Success? ==> version.Some? && |Split(version.value, '.')| >= 2
  {
    match version
    case None => Failure(NullPointer("version"))
    case Some(v) =>
      var parts := Split(v, '.');
      if |parts| < 2 then Failure(IllegalState("Version " + v + " cannot be interpreted as branch."))
      else Success(parts[0] + "." + parts[1])
  }

  /** "X.Y", "X.Y.Z", "X.Y.Z-qualifier"...: the branch is "X.Y" whenever Y is a non-empty component. */
  lemma BranchOfVersion(major: string, minor: string, rest: string)
    requires '.' !in major && '.' !in minor && minor != ""
    requires rest == [] || rest[0] == '.'
    ensures Branch(Some(major + "." + minor + rest)) == Success(major + "." + minor)
  {
    SplitFirstTwo(major, '.', minor, rest);
  }

  /** A version with a single component, with or without a trailing dot, has no branch. */
  lemma BranchNeedsTwoComponents(major: string, trailingDot: bool)
    requires '.' !in major
    ensures Branch(Some(if trailingDot then major + "." else major)).Failure?
  {
    SplitOnePiece(major, '.', trailingDot);
  }

  /** An empty middle component is kept, as Java's split keeps it: "1..2" has branch "1.". */
  lemma BranchKeepsEmptyComponent()
    ensures Branch(Some("1..2")) == Success("1.")
  {
    var s := "1..2";
    assert '.' in s by { assert s[1] == '.'; }
    assert s == "1" + ['.'] + ("" + ['.'] + "2");
    PiecesJoin("1", '.', "" + ['.'] + "2");
    PiecesJoin("", '.', "2");
    PiecesPlain("1", '.');
    PiecesPlain("2", '.');
    assert Pieces(s, '.') == ["1", "", "2"];
    DropTrailingKeeps(["1", "", "2"], 2);
    assert Split(s, '.') == ["1", "", "2"];
    assert "1" + "." + "" == "1.";
  }

  // ---------------------------------------------------------------- Maven artifacts

  /** Maven coordinates: group id (the A2 category), artifact id (the name), version, classifier. */
  datatype M2Artifact = M2Artifact(groupId: string, artifactId: string, version: Option<string>, classifier: Option<string>)
  {
    /** getClassifier: the empty string when there is none. */
    function Classifier(): string {
      classifier.GetOr("")
    }

    /** toM2Coordinates: "group:artifact[:version]". */
    function Coordinates(): string {
      groupId + ":" + artifactId + (if version.Some? then ":" + version.value else "")
    }

    /** CategoryNameVersion.toString: "group:artifact:version", "null" for a missing version. */
    function Describe(): string {
      groupId + ":" + artifactId + ":" + JavaString(version)
    }

    function Name(): NameVersion {
      NameVersion(artifactId, version)
    }
  }

  /**
   * The M2Artifact(String, String) constructor: the coordinates are split on ':'
   * and must give at least a group and an artifact id (otherwise the array access
   * fails); a third component is the version, anything further is ignored.
   */
  function ParseM2(coordinates: string, classifier: Option<string>): (r: Result<M2Artifact, Failure>)
    ensures r.Success? <==> |Split(coordinates, ':')| >= 2
    ensures r.Success? ==>
      var parts := Split(coordinates, ':');
      && r.value.groupId == parts[0] && r.value.artifactId == parts[1]
      && r.value.version == (if |parts| > 2 then Some(parts[2]) else None)
      && r.value.classifier == classifier
  {
    var parts := Split(coordinates, ':');
    if |parts| < 2 then Failure(IndexOutOfBounds("M2 coordinates " + coordinates))
    else Success(M2Artifact(parts[0], parts[1], if |parts| > 2 then Some(parts[2]) else None, classifier))
  }

  /** Java's parsing of "g:a:v" gives back g, a and v, and printing it gives back "g:a:v". */
  lemma CoordinatesRoundTrip(g: string, a: string, v: string)
    requires ':' !in g && ':' !in a && ':' !in v && v != ""
    ensures ParseM2(g + ":" + a + ":" + v, None) == Success(M2Artifact(g, a, Some(v), None))
    ensures ParseM2(g + ":" + a + ":" + v, None).value.Coordinates() == g + ":" + a + ":" + v
  {
    assert g + ":" + a + ":" + v == g + [':'] + a + [':'] + v;
    SplitThree(g, ':', a, v);
  }

  /** "g:a" leaves the version unset and prints back as "g:a". */
  lemma PartialCoordinatesRoundTrip(g: string, a: string)
    requires ':' !in g && ':' !in a && a != ""
    ensures ParseM2(g + ":" + a, None) == Success(M2Artifact(g, a, None, None))
    ensures ParseM2(g + ":" + a, None).value.Coordinates() == g + ":" + a
  {
    SplitFirstTwo(g, ':', a, []);
    assert g + [':'] + a + [] == g + ":" + a;
  }

  /** Any artifact whose coordinates can be told apart is recovered from its printed coordinates. */
  lemma ParseCoordinates(x: M2Artifact)
    requires ':' !in x.groupId && ':' !in x.artifactId
    requires x.version.Some? ==> ':' !in x.version.value && x.version.value != ""
    requires x.version.None? ==> x.artifactId != ""
    ensures ParseM2(x.Coordinates(), x.classifier) == Success(x)
  {
    if x.version.Some? {
      CoordinatesRoundTrip(x.groupId, x.artifactId, x.version.value);
    } else {
      PartialCoordinatesRoundTrip(x.groupId, x.artifactId);
    }
  }

  /** setVersion when no version was given, as the common and merge descriptors do. */
  function WithDefaultVersion(a: M2Artifact, version: string): (r: M2Artifact)
    ensures r.version.Some?
    ensures a.version.Some? ==> r == a
    ensures a.version.None? ==> r == a.(version := Some(version))
  {
    if a.version.None? then a.(version := Some(version)) else a
  }

  // ---------------------------------------------------------------- M2ConventionsUtils

  const MavenCentral: string := "https://repo1.maven.org/maven2/"

  /** artifactFileName: "<artifact>-<version>[-<classifier>].jar". */
  function ArtifactFileName(a: M2Artifact): string {
    a.artifactId + "-" + JavaString(a.version)
      + (if a.Classifier() == "" then "" else "-" + a.Classifier()) + ".jar"
  }

  /** artifactParentPath(artifact): group with dots as slashes, then artifact and version. */
  function ArtifactParentPath(a: M2Artifact): string {
    Replace(a.groupId, '.', '/') + "/" + a.artifactId + "/" + JavaString(a.version)
  }

  /** artifactParentPath(base, artifact): a slash is inserted after a base that is neither empty nor ends with one. */
  function ArtifactParentPathIn(base: string, a: M2Artifact): string {
    base + (if EndsWith(base, "/") || base == "" then "" else "/") + ArtifactParentPath(a)
  }

  /** artifactPath(base, artifact). */
  function ArtifactPath(base: string, a: M2Artifact): string {
    ArtifactParentPathIn(base, a) + "/" + ArtifactFileName(a)
  }

  /** artifactUrl(repo, artifact). */
  function ArtifactUrl(repo: string, a: M2Artifact): string {
    if EndsWith(repo, "/") then repo + ArtifactPath("/", a)[1..] else repo + ArtifactPath("/", a)
  }

  /** mavenRepoUrl: Maven Central when no repository is given. */
  function MavenRepoUrl(repo: Option<string>, a: M2Artifact): string {
    ArtifactUrl(repo.GetOr(MavenCentral), a)
  }

  /** The Maven layout of an artifact relative to a repository root. */
  lemma ArtifactPathLayout(a: M2Artifact, v: string)
    requires a.version == Some(v)
    ensures ArtifactPath("", a) ==
      Replace(a.groupId, '.', '/') + "/" + a.artifactId + "/" + v + "/"
      + a.artifactId + "-" + v + (if a.Classifier() == "" then "" else "-" + a.Classifier()) + ".jar"
  {
    var parent := Replace(a.groupId, '.', '/') + "/" + a.artifactId + "/" + v;
    var file := a.artifactId + "-" + v + (if a.Classifier() == "" then "" else "-" + a.Classifier()) + ".jar";
    assert ArtifactParentPathIn("", a) == parent;
    assert ArtifactFileName(a) == file;
    assert parent + "/" + file == Replace(a.groupId, '.', '/') + "/" + a.artifactId + "/" + v + "/"
      + a.artifactId + "-" + v + (if a.Classifier() == "" then "" else "-" + a.Classifier()) + ".jar";
  }

  /** The "-classifier" segment is present in the file name exactly when the classifier is non-empty. */
  lemma ClassifierSegment(a: M2Artifact)
    ensures a.Classifier() == "" <==> ArtifactFileName(a) == a.artifactId + "-" + JavaString(a.version) + ".jar"
  {
    if a.Classifier() != "" {
      assert |ArtifactFileName(a)| > |a.artifactId + "-" + JavaString(a.version) + ".jar"|;
    }
  }

  /** The base with exactly the slash artifactUrl relies on. */
  function WithTrailingSlash(repo: string): (r: string)
    ensures EndsWith(r, "/")
  {
    if EndsWith(repo, "/") then repo else repo + "/"
  }

  /** The URL is the repository base, one slash, and the artifact's path relative to the repository root. */
  lemma ArtifactUrlJoin(repo: string, a: M2Artifact)
    ensures ArtifactUrl(repo, a) == WithTrailingSlash(repo) + ArtifactPath("", a)
  {
    var rest := ArtifactParentPath(a) + "/" + ArtifactFileName(a);
    assert ArtifactPath("", a) == rest;
    assert ArtifactPath("/", a) == "/" + rest;
    assert ("/" + rest)[1..] == rest;
    if !EndsWith(repo, "/") {
      assert repo + ("/" + rest) == (repo + "/") + rest;
    }
  }

  /** For a group that does not itself start with a slash or dot, no "//" appears where the base meets the path. */
  lemma ArtifactUrlSingleSlash(repo: string, a: M2Artifact)
    requires a.groupId != "" && a.groupId[0] != '/' && a.groupId[0] != '.'
    ensures var u := ArtifactUrl(repo, a); var n := |WithTrailingSlash(repo)|;
      n < |u| && u[n - 1] == '/' && u[n] != '/'
  {
    ArtifactUrlJoin(repo, a);
    var rel := ArtifactPath("", a);
    assert rel[0] == Replace(a.groupId, '.', '/')[0];
  }

  /** Without a repository the artifact is taken from Maven Central. */
  lemma DefaultRepository(a: M2Artifact)
    ensures MavenRepoUrl(None, a) == MavenCentral + ArtifactPath("", a)
  {
    ArtifactUrlJoin(MavenCentral, a);
    assert EndsWith(MavenCentral, "/");
  }
}
