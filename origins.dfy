/**
 * Where the repackaged components come from: download into a local cache,
 * the choice of a mirror for an archive URI, and the URIs of Maven artifacts.
 * The network is an oracle, the set of URIs a fetch succeeds for; the cache
 * is the set of paths that exist.
 */
module Origins {
  import opened Wrappers
  import opened JavaText
  import opened Identity
  import opened Headers
  import opened FileTree

  // ---------------------------------------------------------------- URIs and cache names

  /** The part of `s` before the first '?' or '#'. */
  function BeforeQuery(s: string): (r: string)
    ensures '?' !in r && '#' !in r
    ensures StartsWith(s, r)
    ensures '?' !in s && '#' !in s ==> r == s
  {
    if s == [] || s[0] == '?' || s[0] == '#' then ""
    else
      var rest := BeforeQuery(s[1..]);
      assert s[..|[s[0]] + rest|] == [s[0]] + s[1..][..|rest|];
      [s[0]] + rest
  }

  /**
   * URI.getPath of a hierarchical URI "scheme://authority/path?query#fragment":
   * from the first '/' after the authority up to the query or fragment; a URI
   * without "://" is taken as a relative path.
   */
  function UriPath(uri: string): string {
    var i := IndexOf(uri, "://");
    if i < 0 then BeforeQuery(uri)
    else
      var rest := uri[i + 3..];
      var slash := IndexOf(rest, "/");
      if slash < 0 then "" else BeforeQuery(rest[slash..])
  }

  lemma UriPathOf(scheme: string, host: string, path: string)
    requires ':' !in scheme && '/' !in host
    requires path != [] && path[0] == '/' && '?' !in path && '#' !in path
    ensures UriPath(scheme + "://" + host + path) == path
  {
    var uri := scheme + "://" + host + path;
    assert uri == scheme + "://" + (host + path);
    IndexOfAfterPlainPrefix(scheme, "://", host + path);
    var rest := uri[|scheme| + 3..];
    assert rest == host + path;
    assert host + path == host + "/" + path[1..];
    IndexOfAfterPlainPrefix(host, "/", path[1..]);
    assert rest[|host|..] == path;
  }

  /**
   * The file name download gives an archive when none is imposed: the last two
   * segments of the URI path joined by '-', or the only segment; a path with no
   * segment at all ("/") makes the array access fail.
   */
  function CacheName(uriPath: string): (r: Result<string, Failure>)
    ensures r.Failure? <==> Split(uriPath, '/') == []
  {
    var segments := Split(uriPath, '/');
    if |segments| == 0 then Failure(IndexOutOfBounds(uriPath))
    else if |segments| > 1 then Success(segments[|segments| - 2] + "-" + segments[|segments| - 1])
    else Success(segments[0])
  }

  /** An archive whose own name is generic is told apart by its parent directory. */
  lemma CacheNameNested(prefix: string, parent: string, file: string)
    requires '/' !in parent && '/' !in file && file != ""
    ensures CacheName(prefix + "/" + parent + "/" + file) == Success(parent + "-" + file)
  {
    assert prefix + "/" + parent + "/" + file == prefix + ['/'] + parent + ['/'] + file;
    SplitLastTwo(prefix, '/', parent, file);
  }

  /** A path of one segment keeps it as the name. */
  lemma CacheNameSingle(file: string)
    requires '/' !in file && file != ""
    ensures CacheName(file) == Success(file)
  {
    SplitOnePiece(file, '/', false);
  }

  /** The root path has no segment: download fails with an index error. */
  lemma CacheNameRoot()
    ensures CacheName("/").Failure?
  {
    SplitOnePiece("", '/', true);
    assert "" + ['/'] == "/";
  }

  /** download(uri, dir, name): the destination path, from the given name or from the URI path. */
  function Destination(uri: string, dir: string, name: Option<string>): (r: Result<string, Failure>)
    ensures name.Some? ==> r == Success(Resolve(dir, name.value))
    ensures name.None? && CacheName(UriPath(uri)).Success? ==> r == Success(Resolve(dir, CacheName(UriPath(uri)).value))
    ensures name.None? && CacheName(UriPath(uri)).Failure? ==> r.Failure? && r.error.IndexOutOfBounds?
  {
    match name
    case Some(n) => Success(Resolve(dir, n))
    case None =>
      match CacheName(UriPath(uri))
      case Success(n) => Success(Resolve(dir, n))
      case Failure(e) => Failure(e)
  }

  // ---------------------------------------------------------------- the download cache

  /** The paths that exist and the URIs fetched so far, in order. */
  datatype Cache = Cache(files: set<string>, fetched: seq<string>)

  /**
   * One download: an existing destination is returned without fetching;
   * otherwise the URI is fetched, and either the destination now exists or the
   * fetch fails with FileNotFoundException.
   */
  function DownloadStep(st: Cache, network: set<string>, uri: string, dir: string, name: Option<string>): (res: (Result<string, Failure>, Cache))
  {
    match Destination(uri, dir, name)
    case Failure(e) => (Failure(e), st)
    case Success(dest) =>
      if dest in st.files then (Success(dest), st)
      else if uri in network then (Success(dest), Cache(st.files + {dest}, st.fetched + [uri]))
      else (Failure(FileNotFound(uri)), Cache(st.files, st.fetched + [uri]))
  }

  /** What a download of `uri` would do from cache contents `files`. */
  predicate Found(files: set<string>, network: set<string>, uri: string, dir: string) {
    Destination(uri, dir, None).Success? && (Destination(uri, dir, None).value in files || uri in network)
  }

  predicate Missing(files: set<string>, network: set<string>, uri: string, dir: string) {
    Destination(uri, dir, None).Success? && !Found(files, network, uri, dir)
  }

  /**
   * download returns the destination, which then exists; it only fetches on a
   * cache miss, only a successful fetch adds a file, and a failed one changes
   * nothing else.
   */
  lemma DownloadOutcome(st: Cache, network: set<string>, uri: string, dir: string, name: Option<string>)
    ensures var (r, st2) := DownloadStep(st, network, uri, dir, name);
      && st.files <= st2.files
      && (r.Success? ==> r.value in st2.files && Destination(uri, dir, name) == r)
      && (r.Success? && Destination(uri, dir, name).value in st.files ==> st2 == st)
      && (st2.fetched == st.fetched || st2.fetched == st.fetched + [uri])
      && (r.Failure? ==> st2.files == st.files)
      && (r.Failure? && r.error.FileNotFound? <==>
            (name.None? && Missing(st.files, network, uri, dir))
            || (name.Some? && Resolve(dir, name.value) !in st.files && uri !in network))
  {
  }

  /** A second download of the same artifact is a cache hit: same path, nothing fetched. */
  lemma DownloadIdempotent(st: Cache, network: set<string>, uri: string, dir: string, name: Option<string>)
    requires DownloadStep(st, network, uri, dir, name).0.Success?
    ensures var (r, st2) := DownloadStep(st, network, uri, dir, name);
      DownloadStep(st2, network, uri, dir, name) == (r, st2)
  {
  }

  // ---------------------------------------------------------------- mirrors

  /** A mirror table: URI prefix and base URLs, in the iteration order of the map. */
  type Mirrors = seq<(string, seq<string>)>

  predicate Serves(entry: (string, seq<string>), uri: string) {
    StartsWith(uri, entry.0) && |entry.1| > 0
  }

  /** The first mirror entry whose prefix starts the URI and which has at least one base URL. */
  function FindMirror(mirrors: Mirrors, uri: string): (r: Option<int>)
    ensures r.None? ==> forall i :: 0 <= i < |mirrors| ==> !Serves(mirrors[i], uri)
    ensures r.Some? ==>
      && 0 <= r.value < |mirrors| && Serves(mirrors[r.value], uri)
      && forall i :: 0 <= i < r.value ==> !Serves(mirrors[i], uri)
  {
    if mirrors == [] then None
    else if Serves(mirrors[0], uri) then Some(0)
    else match FindMirror(mirrors[1..], uri)
      case None => None
      case Some(i) => Some(i + 1)
  }

  /** Each base URL in turn replaces the prefix; the first found is returned, a not-found one is passed over. */
  function TryBases(st: Cache, network: set<string>, bases: seq<string>, relative: string, dir: string, uri: string): (res: (Result<string, Failure>, Cache))
    decreases |bases|
  {
    if bases == [] then (Failure(FileNotFound("Cannot find " + uri)), st)
    else
      var (r, st2) := DownloadStep(st, network, bases[0] + relative, dir, None);
      if r.Success? || !r.error.FileNotFound? then (r, st2)
      else TryBases(st2, network, bases[1..], relative, dir, uri)
  }

  /** tryDownloadArchive: a mirror when one serves the URI, else the URI itself. */
  function TryArchive(st: Cache, network: set<string>, mirrors: Mirrors, uri: string, dir: string): (res: (Result<string, Failure>, Cache))
  {
    match FindMirror(mirrors, uri)
    case None =>
      var (r, st2) := DownloadStep(st, network, uri, dir, None);
      if r.Failure? && r.error.FileNotFound? then (Failure(FileNotFound("Cannot find " + uri)), st2) else (r, st2)
    case Some(i) =>
      TryBases(st, network, mirrors[i].1, uri[|mirrors[i].0|..], dir, uri)
  }

  /**
   * Mirror fallback: the archive is found iff some base URL, in list order,
   * is found after only not-found ones; the path returned is that of the first
   * such base; and when every base is not found the result is FileNotFound.
   */
  lemma {:induction false} MirrorFallback(st: Cache, network: set<string>, bases: seq<string>, relative: string, dir: string, uri: string)
    ensures var (r, st2) := TryBases(st, network, bases, relative, dir, uri);
      && st.files <= st2.files
      && (r.Success? <==> exists i :: FirstFound(st.files, network, bases, relative, dir, i))
      && (forall i :: FirstFound(st.files, network, bases, relative, dir, i) ==>
            r == Destination(bases[i] + relative, dir, None))
      && ((forall j :: 0 <= j < |bases| ==> Missing(st.files, network, bases[j] + relative, dir)) ==>
            r == Failure(FileNotFound("Cannot find " + uri)))
    decreases |bases|
  {
    if bases != [] {
      var (r, st2) := DownloadStep(st, network, bases[0] + relative, dir, None);
      DownloadOutcome(st, network, bases[0] + relative, dir, None);
      if !(r.Success? || !r.error.FileNotFound?) {
        assert st2.files == st.files;
        MirrorFallback(st2, network, bases[1..], relative, dir, uri);
        FirstFoundShift(st.files, network, bases, relative, dir);
      } else if r.Success? {
        assert FirstFound(st.files, network, bases, relative, dir, 0);
        forall i | FirstFound(st.files, network, bases, relative, dir, i) ensures i == 0 {
          assert !Missing(st.files, network, bases[0] + relative, dir);
        }
      } else {
        forall i | 0 <= i < |bases| ensures !FirstFound(st.files, network, bases, relative, dir, i) {
          assert !Missing(st.files, network, bases[0] + relative, dir);
        }
      }
    }
  }

  /** When the first base is not found, the search goes on in the rest of the list. */
  lemma FirstFoundShift(files: set<string>, network: set<string>, bases: seq<string>, relative: string, dir: string)
    requires bases != [] && Missing(files, network, bases[0] + relative, dir)
    ensures forall i :: FirstFound(files, network, bases, relative, dir, i) ==>
      i > 0 && FirstFound(files, network, bases[1..], relative, dir, i - 1)
    ensures forall i :: FirstFound(files, network, bases[1..], relative, dir, i) ==>
      FirstFound(files, network, bases, relative, dir, i + 1)
    ensures (forall j :: 0 <= j < |bases| ==> Missing(files, network, bases[j] + relative, dir)) ==>
      forall j :: 0 <= j < |bases| - 1 ==> Missing(files, network, bases[1..][j] + relative, dir)
  {
    forall i | FirstFound(files, network, bases, relative, dir, i)
      ensures i > 0 && FirstFound(files, network, bases[1..], relative, dir, i - 1)
    {
      assert bases[1..][i - 1] == bases[i];
      forall j | 0 <= j < i - 1 ensures Missing(files, network, bases[1..][j] + relative, dir) {
        assert bases[1..][j] == bases[j + 1];
      }
    }
    forall i | FirstFound(files, network, bases[1..], relative, dir, i)
      ensures FirstFound(files, network, bases, relative, dir, i + 1)
    {
      assert bases[1..][i] == bases[i + 1];
      forall j | 0 <= j < i + 1 ensures Missing(files, network, bases[j] + relative, dir) {
        if j > 0 { assert bases[1..][j - 1] == bases[j]; }
      }
    }
    if forall j :: 0 <= j < |bases| ==> Missing(files, network, bases[j] + relative, dir) {
      forall j | 0 <= j < |bases| - 1 ensures Missing(files, network, bases[1..][j] + relative, dir) {
        assert bases[1..][j] == bases[j + 1];
      }
    }
  }

  /** Base `i` is found and every base before it is not found. */
  predicate FirstFound(files: set<string>, network: set<string>, bases: seq<string>, relative: string, dir: string, i: int) {
    && 0 <= i < |bases|
    && Found(files, network, bases[i] + relative, dir)
    && forall j :: 0 <= j < i ==> Missing(files, network, bases[j] + relative, dir)
  }

  /** Without a serving mirror, a URI that cannot be fetched gives "Cannot find <uri>". */
  lemma DirectDownloadNotFound(st: Cache, network: set<string>, mirrors: Mirrors, uri: string, dir: string)
    requires FindMirror(mirrors, uri).None?
    requires Missing(st.files, network, uri, dir)
    ensures TryArchive(st, network, mirrors, uri, dir).0 == Failure(FileNotFound("Cannot find " + uri))
  {
  }

  /** The downloader: the cache of existing paths, the log of fetches, and what the network serves. */
  class Downloader {
    var files: set<string>
    var fetched: seq<string>
    const network: set<string>

    constructor(files: set<string>, network: set<string>)
      ensures State() == Cache(files, []) && this.network == network
    {
      this.files := files;
      this.fetched := [];
      this.network := network;
    }

    function State(): Cache
      reads this
    {
      Cache(files, fetched)
    }

    /** download(uri, dir, name). */
    method Download(uri: string, dir: string, name: Option<string>) returns (r: Result<string, Failure>)
      modifies this
      ensures (r, State()) == DownloadStep(old(State()), network, uri, dir, name)
    {
      var dest := Destination(uri, dir, name);
      if dest.Failure? {
        return Failure(dest.error);
      }
      if dest.value in files {
        return Success(dest.value);
      }
      fetched := fetched + [uri];
      if uri in network {
        files := files + {dest.value};
        r := Success(dest.value);
      } else {
        r := Failure(FileNotFound(uri));
      }
    }

    /** tryDownloadArchive(uri, dir): the mirror search, then each base URL in turn. */
    method TryDownloadArchive(uri: string, dir: string, mirrors: Mirrors) returns (r: Result<string, Failure>)
      modifies this
      ensures (r, State()) == TryArchive(old(State()), network, mirrors, uri, dir)
    {
      var found := -1;
      var i := 0;
      while i < |mirrors|
        invariant 0 <= i <= |mirrors|
        invariant forall j :: 0 <= j < i ==> !Serves(mirrors[j], uri)
      {
        if StartsWith(uri, mirrors[i].0) && |mirrors[i].1| > 0 {
          found := i;
          break;
        }
        i := i + 1;
      }
      if found < 0 {
        assert FindMirror(mirrors, uri).None?;
        r := Download(uri, dir, None);
        if r.Failure? && r.error.FileNotFound? {
          r := Failure(FileNotFound("Cannot find " + uri));
        }
        return;
      }
      assert FindMirror(mirrors, uri) == Some(found);
      var bases := mirrors[found].1;
      var relative := uri[|mirrors[found].0|..];
      ghost var goal := TryBases(State(), network, bases, relative, dir, uri);
      var k := 0;
      while k < |bases|
        invariant 0 <= k <= |bases|
        invariant TryBases(State(), network, bases[k..], relative, dir, uri) == goal
      {
        assert bases[k..][0] == bases[k] && bases[k..][1..] == bases[k + 1..];
        r := Download(bases[k] + relative, dir, None);
        if r.Success? || !r.error.FileNotFound? {
          return;
        }
        k := k + 1;
      }
      r := Failure(FileNotFound("Cannot find " + uri));
    }

    /**
     * downloadMaven(props, artifact): the artifact URI (Argeo-Origin-URI, or the
     * Maven layout under Argeo-Origin-M2-Repo or Maven Central), cached under
     * the Maven layout path in the local repository.
     */
    method DownloadMaven(props: Properties, artifact: M2Artifact, mavenBase: string) returns (r: Result<string, Failure>)
      modifies this
      ensures (r, State()) == DownloadStep(old(State()), network, MavenUri(props, artifact), mavenBase, Some(ArtifactPath("", artifact)))
    {
      r := Download(MavenUri(props, artifact), mavenBase, Some(ArtifactPath("", artifact)));
    }
  }

  /** The URI downloadMaven fetches an artifact from. */
  function MavenUri(props: Properties, artifact: M2Artifact): string {
    if ArgeoOriginUri in props then props[ArgeoOriginUri]
    else MavenRepoUrl(Property(props, ArgeoOriginM2Repo), artifact)
  }

  /** The local Maven cache mirrors the remote layout: same relative path under both roots. */
  lemma MavenCacheLayout(props: Properties, artifact: M2Artifact, mavenBase: string)
    requires ArgeoOriginUri !in props
    ensures var repo := if ArgeoOriginM2Repo in props then props[ArgeoOriginM2Repo] else MavenCentral;
      && MavenUri(props, artifact) == WithTrailingSlash(repo) + ArtifactPath("", artifact)
      && Destination(MavenUri(props, artifact), mavenBase, Some(ArtifactPath("", artifact)))
         == Success(Resolve(mavenBase, ArtifactPath("", artifact)))
  {
    var repo := if ArgeoOriginM2Repo in props then props[ArgeoOriginM2Repo] else MavenCentral;
    ArtifactUrlJoin(repo, artifact);
  }

  /**
   * The sources of an artifact: its printed coordinates parsed again with the
   * "sources" classifier, as downloadAndProcessM2Sources does.
   */
  function SourcesArtifact(artifact: M2Artifact): Result<M2Artifact, Failure> {
    ParseM2(artifact.Coordinates(), Some("sources"))
  }

  /** For coordinates that print unambiguously, the sources artifact differs only by its classifier. */
  lemma SourcesArtifactClassifier(artifact: M2Artifact)
    requires ':' !in artifact.groupId && ':' !in artifact.artifactId
    requires artifact.version.Some? && ':' !in artifact.version.value && artifact.version.value != ""
    ensures SourcesArtifact(artifact) == Success(artifact.(classifier := Some("sources")))
    ensures ArtifactFileName(SourcesArtifact(artifact).value)
      == artifact.artifactId + "-" + artifact.version.value + "-sources.jar"
  {
    ParseCoordinates(artifact.(classifier := Some("sources")));
  }
}
