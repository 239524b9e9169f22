/**
 * Descriptors: the .bnd files of a distribution unit and what they become.
 * A common.bnd gives the M2 version (":<version>") and shared headers, each
 * other descriptor adds or overrides headers for one Maven artifact, and a
 * merge.bnd lists several artifacts to merge into one bundle. The headers BND
 * computes are then filtered before they reach the bundle's manifest.
 */
module Descriptors {
  import opened Wrappers
  import opened JavaText
  import opened Identity
  import opened Headers
  import opened Provenance

  /**
   * The M2 version of a common or merge descriptor: absent for a unit that is
   * not M2-based (which is ignored), and otherwise ":" followed by the version.
   */
  function M2Version(props: Properties): (r: Result<Option<string>, Failure>)
    ensures r == Success(None) <==> ArgeoOriginM2 !in props
    ensures r.Failure? <==> ArgeoOriginM2 in props && !StartsWith(props[ArgeoOriginM2], ":")
    ensures r.Failure? ==> r.error == IllegalState("Only the M2 version can be specified: " + props[ArgeoOriginM2])
    ensures r.Success? && r.value.Some? ==> props[ArgeoOriginM2] == ":" + r.value.value
  {
    match Property(props, ArgeoOriginM2)
    case None => Success(None)
    case Some(v) =>
      if !StartsWith(v, ":") then Failure(IllegalState("Only the M2 version can be specified: " + v))
      else
        assert v == ":" + v[1..] by { assert v[..1] == ":"; }
        Success(Some(v[1..]))
  }

  /** The symbolic name a descriptor stands for when it names none: its file name without ".bnd". */
  function FileStem(fileName: string): (r: string)
    requires EndsWith(fileName, ".bnd")
    ensures r + ".bnd" == fileName
  {
    var r := fileName[..|fileName| - 4];
    assert fileName == r + fileName[|fileName| - 4..];
    r
  }

  // ---------------------------------------------------------------- layering

  /** The common properties overridden by those of the file whose keys are no longer `pending`; the file's own M2 coordinates are left out. */
  function LayeredExcept(common: Properties, file: Properties, pending: set<string>): Properties {
    map k | k in common.Keys + (file.Keys - pending - {ArgeoOriginM2}) ::
      if k in file && k !in pending && k != ArgeoOriginM2 then file[k] else common[k]
  }

  /** All of the file's properties laid over the common ones. */
  function Layered(common: Properties, file: Properties): Properties {
    LayeredExcept(common, file, {})
  }

  /** The file wins over the common descriptor, key by key, Argeo-Origin-M2 aside. */
  lemma LayeredPrecedence(common: Properties, file: Properties, k: string)
    ensures k != ArgeoOriginM2 ==> (k in Layered(common, file) <==> k in common || k in file)
    ensures k != ArgeoOriginM2 && k in file ==> Layered(common, file)[k] == file[k]
    ensures k !in file && k in common ==> Layered(common, file)[k] == common[k]
    ensures ArgeoOriginM2 in Layered(common, file) <==> ArgeoOriginM2 in common
  {
  }

  /** The loop putting the file's properties, but its Argeo-Origin-M2, over a copy of the common ones. */
  method LayerProperties(common: Properties, file: Properties) returns (merged: Properties)
    ensures merged == Layered(common, file)
  {
    merged := common;
    var pending := file.Keys;
    assert merged == LayeredExcept(common, file, pending);
    while pending != {}
      invariant pending <= file.Keys
      invariant merged == LayeredExcept(common, file, pending)
      decreases |pending|
    {
      var k :| k in pending;
      if k != ArgeoOriginM2 {
        merged := merged[k := file[k]];
      }
      pending := pending - {k};
      assert merged == LayeredExcept(common, file, pending);
    }
  }

  /** One component of an M2-based distribution unit: its artifact and the properties it is built from. */
  datatype Component = Component(artifact: M2Artifact, props: Properties)

  /**
   * The per-descriptor part of processM2BasedDistributionUnit: the artifact of
   * the descriptor's Argeo-Origin-M2 (with the common version when it names
   * none), the layered properties, Argeo-Origin-M2 set to the full
   * coordinates, and the symbolic name defaulting to the file name.
   */
  function ComponentDescriptor(m2Version: string, common: Properties, file: Properties, fileName: string): (r: Result<Component, Failure>)
    requires EndsWith(fileName, ".bnd")
    ensures r.Success? <==> ArgeoOriginM2 in file && |Split(file[ArgeoOriginM2], ':')| >= 2
    ensures ArgeoOriginM2 !in file ==> r == Failure(NullPointer(ArgeoOriginM2))
    ensures r.Success? ==>
      && r.value.artifact.version.Some?
      && ArgeoOriginM2 in r.value.props && BundleSymbolicName in r.value.props
      && r.value.props[ArgeoOriginM2] == r.value.artifact.Coordinates()
      && r.value.props[BundleSymbolicName] ==
           (if BundleSymbolicName in file then file[BundleSymbolicName]
            else if BundleSymbolicName in common then common[BundleSymbolicName]
            else FileStem(fileName))
      && forall k :: k != ArgeoOriginM2 && k != BundleSymbolicName ==>
           (k in r.value.props <==> k in Layered(common, file)) && (k in r.value.props ==> r.value.props[k] == Layered(common, file)[k])
  {
    match Property(file, ArgeoOriginM2)
    case None => Failure(NullPointer(ArgeoOriginM2))
    case Some(coordinates) =>
      match ParseM2(coordinates, None)
      case Failure(f) => Failure(f)
      case Success(a) =>
        var artifact := WithDefaultVersion(a, m2Version);
        var merged := Layered(common, file)[ArgeoOriginM2 := artifact.Coordinates()];
        LayeredPrecedence(common, file, BundleSymbolicName);
        Success(Component(artifact,
          if BundleSymbolicName in merged then merged else merged[BundleSymbolicName := FileStem(fileName)]))
  }

  /** A descriptor naming "group:artifact" gets the common version, and records the full coordinates. */
  lemma ComponentTakesCommonVersion(m2Version: string, common: Properties, file: Properties, fileName: string, g: string, a: string)
    requires EndsWith(fileName, ".bnd") && ':' !in g && ':' !in a && a != ""
    requires ArgeoOriginM2 in file && file[ArgeoOriginM2] == g + ":" + a
    ensures var r := ComponentDescriptor(m2Version, common, file, fileName);
      && r.Success?
      && r.value.artifact == M2Artifact(g, a, Some(m2Version), None)
      && r.value.props[ArgeoOriginM2] == g + ":" + a + ":" + m2Version
  {
    PartialCoordinatesRoundTrip(g, a);
  }

  /** A descriptor naming "group:artifact:version" keeps its own version over the common one. */
  lemma ComponentKeepsOwnVersion(m2Version: string, common: Properties, file: Properties, fileName: string, g: string, a: string, v: string)
    requires EndsWith(fileName, ".bnd") && ':' !in g && ':' !in a && ':' !in v && v != ""
    requires ArgeoOriginM2 in file && file[ArgeoOriginM2] == g + ":" + a + ":" + v
    ensures var r := ComponentDescriptor(m2Version, common, file, fileName);
      && r.Success?
      && r.value.artifact == M2Artifact(g, a, Some(v), None)
      && r.value.props[ArgeoOriginM2] == g + ":" + a + ":" + v
  {
    CoordinatesRoundTrip(g, a, v);
  }

  // ---------------------------------------------------------------- merging

  /** StringJoiner: the strings separated by `sep`. */
  function Join(xs: seq<string>, sep: char): (r: string)
    ensures xs == [] ==> r == ""
    ensures |xs| == 1 ==> r == xs[0]
  {
    if xs == [] then ""
    else if |xs| == 1 then xs[0]
    else xs[0] + [sep] + Join(xs[1..], sep)
  }

  /** Splitting a join gives the strings back when none holds the separator and the last is not empty. */
  lemma {:induction false} SplitJoin(xs: seq<string>, sep: char)
    requires xs != [] && xs[|xs| - 1] != ""
    requires forall i :: 0 <= i < |xs| ==> sep !in xs[i]
    ensures Split(Join(xs, sep), sep) == xs
  {
    PiecesOfJoin(xs, sep);
    DropTrailingKeeps(xs, |xs| - 1);
  }

  lemma {:induction false} PiecesOfJoin(xs: seq<string>, sep: char)
    requires xs != []
    requires forall i :: 0 <= i < |xs| ==> sep !in xs[i]
    ensures Pieces(Join(xs, sep), sep) == xs
    decreases |xs|
  {
    if |xs| == 1 {
      PiecesPlain(xs[0], sep);
    } else {
      PiecesJoin(xs[0], sep, Join(xs[1..], sep));
      PiecesPlain(xs[0], sep);
      PiecesOfJoin(xs[1..], sep);
      assert [xs[0]] + xs[1..] == xs;
    }
  }

  /**
   * The artifacts of Argeo-Origin-M2-Merge, after the split on ',': each
   * entry trimmed, blank entries skipped, and the version of the merge
   * descriptor given to the artifacts that name none.
   */
  function MergedArtifacts(entries: seq<string>, m2Version: string): Result<seq<M2Artifact>, Failure>
    decreases |entries|
  {
    if entries == [] then Success([])
    else
      var head := MergedEntry(entries[0], m2Version);
      if head.None? then MergedArtifacts(entries[1..], m2Version)
      else
        match head.value
        case Failure(f) => Failure(f)
        case Success(a) =>
          match MergedArtifacts(entries[1..], m2Version)
          case Failure(f) => Failure(f)
          case Success(rest) => Success([a] + rest)
  }

  /**
   * One entry of Argeo-Origin-M2-Merge: nothing when blank, else its artifact
   * with a version. The coordinates are trimmed a second time before parsing,
   * which changes nothing (TrimIdempotent), so they are parsed as trimmed once.
   */
  function MergedEntry(entry: string, m2Version: string): (r: Option<Result<M2Artifact, Failure>>)
    ensures r.None? <==> Trim(entry) == ""
    ensures r.Some? && r.value.Success? ==> r.value.value.version.Some?
  {
    var coordinates := Trim(entry);
    if coordinates == "" then None
    else
      match ParseM2(coordinates, None)
      case Failure(f) => Some(Failure(f))
      case Success(a) => Some(Success(WithDefaultVersion(a, m2Version)))
  }

  /** Blank entries are skipped, and every artifact read has a version. */
  lemma {:induction false} MergedArtifactsVersioned(entries: seq<string>, m2Version: string)
    ensures var r := MergedArtifacts(entries, m2Version);
      r.Success? ==> |r.value| <= |entries| && forall i :: 0 <= i < |r.value| ==> r.value[i].version.Some?
    decreases |entries|
  {
    if entries != [] {
      MergedArtifactsVersioned(entries[1..], m2Version);
      MergedArtifactsUnfold(entries, m2Version);
      var head := MergedEntry(entries[0], m2Version);
      var tail := MergedArtifacts(entries[1..], m2Version);
      if MergedArtifacts(entries, m2Version).Success? && head.Some? {
        VersionedCons(head.value.value, tail.value);
      }
    }
  }

  /** One step of MergedArtifacts: a blank entry is skipped, otherwise a success is the head before the rest. */
  lemma MergedArtifactsUnfold(entries: seq<string>, m2Version: string)
    requires entries != []
    ensures var head := MergedEntry(entries[0], m2Version);
      var tail := MergedArtifacts(entries[1..], m2Version);
      var r := MergedArtifacts(entries, m2Version);
      && (head.None? ==> r == tail)
      && (r.Success? && head.Some? ==> head.value.Success? && tail.Success? && r.value == [head.value.value] + tail.value)
  {
  }

  lemma VersionedCons(a: M2Artifact, rest: seq<M2Artifact>)
    requires a.version.Some? && forall i :: 0 <= i < |rest| ==> rest[i].version.Some?
    ensures forall i :: 0 <= i < |[a] + rest| ==> ([a] + rest)[i].version.Some?
  {
    forall i | 0 <= i < |[a] + rest| ensures ([a] + rest)[i].version.Some? {
      if i > 0 {
        assert ([a] + rest)[i] == rest[i - 1];
      }
    }
  }

  /** An artifact whose printed coordinates parse back to it. */
  predicate Printable(x: M2Artifact) {
    && ':' !in x.groupId && ':' !in x.artifactId && ',' !in x.groupId && ',' !in x.artifactId
    && x.classifier.None?
    && (x.version.Some? ==> ':' !in x.version.value && ',' !in x.version.value && x.version.value != "")
    && (x.version.None? ==> x.artifactId != "")
    && x.groupId != [] && !IsTrimmed(x.groupId[0])
    && (x.version.Some? ==> !IsTrimmed(x.version.value[|x.version.value| - 1]))
    && (x.version.None? ==> !IsTrimmed(x.artifactId[|x.artifactId| - 1]))
  }

  function CoordinatesOf(xs: seq<M2Artifact>): (r: seq<string>)
    ensures |r| == |xs| && forall i :: 0 <= i < |xs| ==> r[i] == xs[i].Coordinates()
  {
    seq(|xs|, i requires 0 <= i < |xs| => xs[i].Coordinates())
  }

  function WithDefaultVersions(xs: seq<M2Artifact>, m2Version: string): (r: seq<M2Artifact>)
    ensures |r| == |xs| && forall i :: 0 <= i < |xs| ==> r[i] == WithDefaultVersion(xs[i], m2Version)
  {
    seq(|xs|, i requires 0 <= i < |xs| => WithDefaultVersion(xs[i], m2Version))
  }

  /** The printed coordinates of a printable artifact: trimmed, comma-free, and parsed back to it. */
  lemma PrintedCoordinates(x: M2Artifact)
    requires Printable(x)
    ensures var c := x.Coordinates();
      && c != "" && ',' !in c && Trim(c) == c && ParseM2(c, None) == Success(x)
  {
    var c := x.Coordinates();
    assert c[0] == x.groupId[0];
    if x.version.Some? {
      var v := x.version.value;
      assert c == x.groupId + ":" + x.artifactId + ":" + v;
      assert c[|c| - 1] == v[|v| - 1];
    } else {
      var a := x.artifactId;
      assert c == x.groupId + ":" + a + "";
      assert c[|c| - 1] == a[|a| - 1];
    }
    TrimmedAlready(c);
    ParseCoordinates(x);
  }

  lemma MergedArtifactsHead(entries: seq<string>, m2Version: string)
    requires entries != [] && entries[0] != "" && Trim(entries[0]) == entries[0]
    requires ParseM2(entries[0], None).Success? && MergedArtifacts(entries[1..], m2Version).Success?
    ensures MergedArtifacts(entries, m2Version)
      == Success([WithDefaultVersion(ParseM2(entries[0], None).value, m2Version)] + MergedArtifacts(entries[1..], m2Version).value)
  {
  }

  /** The printed coordinates and the defaulted artifacts of a list, taken head first. */
  lemma ListsCons(xs: seq<M2Artifact>, m2Version: string)
    requires xs != []
    ensures CoordinatesOf(xs)[0] == xs[0].Coordinates() && CoordinatesOf(xs)[1..] == CoordinatesOf(xs[1..])
    ensures WithDefaultVersions(xs, m2Version) == [WithDefaultVersion(xs[0], m2Version)] + WithDefaultVersions(xs[1..], m2Version)
  {
    var rest := xs[1..];
    var cs, ds := CoordinatesOf(xs), WithDefaultVersions(xs, m2Version);
    forall i | 0 <= i < |rest| ensures cs[1..][i] == CoordinatesOf(rest)[i] && ds[i + 1] == WithDefaultVersions(rest, m2Version)[i] {
      assert rest[i] == xs[i + 1];
    }
    var rs := [WithDefaultVersion(xs[0], m2Version)] + WithDefaultVersions(rest, m2Version);
    forall i | 0 <= i < |ds| ensures ds[i] == rs[i] {
      if i > 0 {
        assert rs[i] == WithDefaultVersions(rest, m2Version)[i - 1];
      }
    }
  }

  /** A printed list of artifacts is read back, each with its own version or the merge version. */
  lemma {:induction false} MergedArtifactsOf(xs: seq<M2Artifact>, m2Version: string)
    requires forall i :: 0 <= i < |xs| ==> Printable(xs[i])
    ensures MergedArtifacts(CoordinatesOf(xs), m2Version) == Success(WithDefaultVersions(xs, m2Version))
    decreases |xs|
  {
    if xs != [] {
      var x, rest := xs[0], xs[1..];
      assert forall i :: 0 <= i < |rest| ==> Printable(rest[i]) by {
        forall i | 0 <= i < |rest| ensures Printable(rest[i]) {
          assert rest[i] == xs[i + 1];
        }
      }
      MergedArtifactsOf(rest, m2Version);
      var cs := CoordinatesOf(xs);
      ListsCons(xs, m2Version);
      PrintedCoordinates(x);
      MergedArtifactsHead(cs, m2Version);
    } else {
      assert CoordinatesOf(xs) == [];
    }
  }

  /** What a merge descriptor yields: the properties, the bundle and the artifacts to merge into it. */
  datatype MergePlan = MergePlan(
    props: Properties,
    bundleSymbolicName: string,
    bundleDirName: string,       // <symbolic name>.<branch>
    artifacts: seq<M2Artifact>,
    originDesc: string)          // the artifacts, comma-separated, for Argeo-Origin-M2

  function Descriptions(xs: seq<M2Artifact>): (r: seq<string>)
    ensures |r| == |xs| && forall i :: 0 <= i < |xs| ==> r[i] == xs[i].Describe()
  {
    seq(|xs|, i requires 0 <= i < |xs| => xs[i].Describe())
  }

  /**
   * The descriptor part of mergeM2Artifacts: merge.bnd over common.bnd (empty
   * when there is none), the M2 version checked and written as Bundle-Version,
   * the list to merge and the symbolic name required, the branch taken from
   * "<category>:<name>:<version>".
   */
  function MergeDescriptor(common: Properties, merge: Properties, category: string, mergeBnd: string): (r: Result<Option<MergePlan>, Failure>)
  {
    var props := common + merge;
    match M2Version(props)
    case Failure(f) => Failure(f)
    case Success(None) => Success(None)
    case Success(Some(m2Version)) =>
      var props := props[BundleVersion := m2Version];
      match Property(props, ArgeoOriginM2Merge)
      case None => Failure(IllegalArgument(mergeBnd + ": " + ArgeoOriginM2Merge + " must be set"))
      case Some(artifactsStr) =>
        match Property(props, BundleSymbolicName)
        case None => Failure(IllegalArgument("Bundle-SymbolicName must be set in " + mergeBnd))
        case Some(bsn) =>
          match ParseM2(category + ":" + bsn + ":" + m2Version, None)
          case Failure(f) => Failure(f)
          case Success(nameVersion) =>
            match Branch(nameVersion.version)
            case Failure(f) => Failure(f)
            case Success(branch) =>
              match MergedArtifacts(Split(artifactsStr, ','), m2Version)
              case Failure(f) => Failure(f)
              case Success(artifacts) =>
                Success(Some(MergePlan(props, bsn, bsn + "." + branch, artifacts, Join(Descriptions(artifacts), ','))))
  }

  /** The checks of a merge descriptor, in the order they are made. */
  lemma MergeDescriptorChecks(common: Properties, merge: Properties, category: string, mergeBnd: string)
    ensures var r := MergeDescriptor(common, merge, category, mergeBnd); var props := common + merge;
      && (ArgeoOriginM2 !in props ==> r == Success(None))
      && (ArgeoOriginM2 in props && !StartsWith(props[ArgeoOriginM2], ":") ==>
            r == Failure(IllegalState("Only the M2 version can be specified: " + props[ArgeoOriginM2])))
      && (ArgeoOriginM2 in props && StartsWith(props[ArgeoOriginM2], ":") && ArgeoOriginM2Merge !in props ==>
            r == Failure(IllegalArgument(mergeBnd + ": " + ArgeoOriginM2Merge + " must be set")))
      && (ArgeoOriginM2 in props && StartsWith(props[ArgeoOriginM2], ":") && ArgeoOriginM2Merge in props && BundleSymbolicName !in props ==>
            r == Failure(IllegalArgument("Bundle-SymbolicName must be set in " + mergeBnd)))
  {
  }

  /** The successful path through MergeDescriptor, step by step. */
  lemma MergeDescriptorSucceeds(common: Properties, merge: Properties, category: string, mergeBnd: string,
                                version: string, branch: string, artifacts: seq<M2Artifact>)
    requires M2Version(common + merge) == Success(Some(version))
    requires ArgeoOriginM2Merge in common + merge && BundleSymbolicName in common + merge
    requires var bsn := (common + merge)[BundleSymbolicName];
      && ParseM2(category + ":" + bsn + ":" + version, None).Success?
      && Branch(ParseM2(category + ":" + bsn + ":" + version, None).value.version) == Success(branch)
    requires MergedArtifacts(Split((common + merge)[ArgeoOriginM2Merge], ','), version) == Success(artifacts)
    ensures var props := common + merge; var bsn := props[BundleSymbolicName];
      MergeDescriptor(common, merge, category, mergeBnd)
        == Success(Some(MergePlan(props[BundleVersion := version], bsn, bsn + "." + branch, artifacts, Join(Descriptions(artifacts), ','))))
  {
  }

  /**
   * A well-formed merge descriptor: the merge file wins over the common one
   * (map union keeps the right-hand value), the version is the bundle's, its directory is <name>.<major>.<minor> and
   * the listed artifacts are read back in order.
   */
  lemma MergePlanOf(common: Properties, merge: Properties, category: string, mergeBnd: string,
                    bsn: string, major: string, minor: string, xs: seq<M2Artifact>)
    requires ':' !in category && ':' !in bsn && '.' !in major && '.' !in minor && minor != "" && ':' !in major + "." + minor
    requires ArgeoOriginM2 in merge && merge[ArgeoOriginM2] == ":" + major + "." + minor
    requires BundleSymbolicName in merge && merge[BundleSymbolicName] == bsn
    requires xs != [] && forall i :: 0 <= i < |xs| ==> Printable(xs[i])
    requires ArgeoOriginM2Merge in merge && merge[ArgeoOriginM2Merge] == Join(CoordinatesOf(xs), ',')
    ensures var version := major + "." + minor; var artifacts := WithDefaultVersions(xs, version);
      MergeDescriptor(common, merge, category, mergeBnd) == Success(Some(MergePlan(
        (common + merge)[BundleVersion := version], bsn, bsn + "." + version,
        artifacts, Join(Descriptions(artifacts), ','))))
  {
    var version := major + "." + minor;
    var props := common + merge;
    M2VersionOf(props, version);
    BranchOfVersion(major, minor, "");
    assert version + "" == version;
    assert version != "" by { assert |version| >= 1; }
    CoordinatesRoundTrip(category, bsn, version);
    PrintedListSplits(xs);
    MergedArtifactsOf(xs, version);
    assert props[BundleSymbolicName] == bsn;
    assert Branch(ParseM2(category + ":" + bsn + ":" + version, None).value.version) == Success(version);
    var artifacts := WithDefaultVersions(xs, version);
    assert MergedArtifacts(Split(props[ArgeoOriginM2Merge], ','), version) == Success(artifacts);
    MergeDescriptorSucceeds(common, merge, category, mergeBnd, version, version, artifacts);
  }

  lemma M2VersionOf(props: Properties, version: string)
    requires ArgeoOriginM2 in props && props[ArgeoOriginM2] == ":" + version
    ensures M2Version(props) == Success(Some(version))
  {
    assert StartsWith(":" + version, ":");
    assert (":" + version)[1..] == version;
  }

  lemma PrintedListSplits(xs: seq<M2Artifact>)
    requires xs != [] && forall i :: 0 <= i < |xs| ==> Printable(xs[i])
    ensures Split(Join(CoordinatesOf(xs), ','), ',') == CoordinatesOf(xs)
  {
    var cs := CoordinatesOf(xs);
    forall i | 0 <= i < |cs| ensures ',' !in cs[i] {
      PrintedCoordinates(xs[i]);
    }
    PrintedCoordinates(xs[|xs| - 1]);
    SplitJoin(cs, ',');
  }

  // ---------------------------------------------------------------- BND

  /**
   * The descriptor given to BND when metadata is generated: the symbolic name
   * defaults to the artifact id, the version to the artifact's (a missing one
   * fails, as Properties refuses null values), and Export-Package to every
   * package at that version.
   */
  function BndProperties(fileProps: Properties, artifact: M2Artifact): (r: Result<Properties, Failure>)
    ensures r.Success? <==> BundleVersion in fileProps || artifact.version.Some?
    ensures r.Success? ==>
      && r.value.Keys == fileProps.Keys + {BundleSymbolicName, BundleVersion, ExportPackage}
      && (forall k :: k in fileProps ==> r.value[k] == fileProps[k])
      && (BundleSymbolicName !in fileProps ==> r.value[BundleSymbolicName] == artifact.artifactId)
      && (BundleVersion !in fileProps ==> r.value[BundleVersion] == artifact.version.value)
      && (ExportPackage !in fileProps ==> r.value[ExportPackage] == "*;version=\"" + r.value[BundleVersion] + "\"")
  {
    var props := if BundleSymbolicName in fileProps then fileProps else fileProps[BundleSymbolicName := artifact.artifactId];
    if BundleVersion !in props && artifact.version.None? then Failure(NullPointer(BundleVersion))
    else
      var props := if BundleVersion in props then props else props[BundleVersion := artifact.version.value];
      Success(if ExportPackage in props then props else props[ExportPackage := "*;version=\"" + props[BundleVersion] + "\""])
  }

  /** The Require-Capability BND computes for very old classes, which is dropped. */
  const ObsoleteExecutionEnvironment: string := "osgi.ee;filter:=\"(&(osgi.ee=JavaSE)(version=1.1))\""

  /** The bookkeeping headers of BND, which never reach the manifest. */
  predicate IsBndBookkeeping(key: string) {
    key == "Tool" || key == "Bnd-LastModified" || key == "Created-By"
  }

  predicate KeepsComputed(key: string, value: string) {
    !IsBndBookkeeping(key) && !(key == RequireCapability && value == ObsoleteExecutionEnvironment)
  }

  /** The computed headers that are kept, among the first `n` BND produced. */
  function KeptAmong(computed: Attributes, n: nat): Properties
    requires n <= |computed.names|
  {
    map k | k in computed.names[..n] && k in computed.values && KeepsComputed(k, computed.values[k]) :: computed.values[k]
  }

  /** Whether the obsolete execution environment is among the first `n` computed headers. */
  predicate ObsoleteAmong(computed: Attributes, n: nat)
    requires n <= |computed.names|
  {
    RequireCapability in computed.names[..n] && RequireCapability in computed.values
      && computed.values[RequireCapability] == ObsoleteExecutionEnvironment
  }

  lemma AmongStep(computed: Attributes, n: nat)
    requires n < |computed.names| && computed.names[n] in computed.values
    ensures var k := computed.names[n]; var v := computed.values[k];
      && KeptAmong(computed, n + 1) == (if KeepsComputed(k, v) then KeptAmong(computed, n)[k := v] else KeptAmong(computed, n))
      && (ObsoleteAmong(computed, n + 1) <==> ObsoleteAmong(computed, n) || (k == RequireCapability && v == ObsoleteExecutionEnvironment))
  {
    assert computed.names[..n + 1] == computed.names[..n] + [computed.names[n]];
  }

  /** The headers kept from what BND computed. */
  function KeptComputed(computed: Attributes): (r: Properties)
    requires computed.Valid()
    ensures forall k :: k in r <==> k in computed.values && KeepsComputed(k, computed.values[k])
    ensures forall k :: k in r ==> r[k] == computed.values[k]
  {
    assert computed.names[..|computed.names|] == computed.names;
    KeptAmong(computed, |computed.names|)
  }

  /** Whether the filter records the obsolete execution environment as deleted. */
  predicate DropsObsoleteEnvironment(computed: Attributes) {
    RequireCapability in computed.values && computed.values[RequireCapability] == ObsoleteExecutionEnvironment
  }

  /**
   * The loop over BND's computed main attributes (processBndJar and
   * mergeM2Artifacts): bookkeeping headers skipped, the obsolete execution
   * environment dropped and recorded as deleted, the others kept.
   */
  method FilterComputedHeaders(computed: Attributes, origin: A2Origin) returns (entries: Properties)
    requires computed.Valid()
    modifies origin
    ensures entries == KeptComputed(computed)
    ensures origin.Changes() ==
      if DropsObsoleteEnvironment(computed) then old(origin.Changes()).Deleted("MANIFEST header " + RequireCapability)
      else old(origin.Changes())
  {
    entries := map[];
    var i := 0;
    ghost var before := origin.Changes();
    while i < |computed.names|
      invariant 0 <= i <= |computed.names|
      invariant entries == KeptAmong(computed, i)
      invariant origin.Changes() ==
        if ObsoleteAmong(computed, i) then before.Deleted("MANIFEST header " + RequireCapability) else before
    {
      var key := computed.names[i];
      assert key in computed.values;
      var value := computed.values[key];
      AmongStep(computed, i);
      if IsBndBookkeeping(key) {
      } else if key == RequireCapability && value == ObsoleteExecutionEnvironment {
        origin.deleted := origin.deleted + {"MANIFEST header " + key};
      } else {
        entries := entries[key := value];
      }
      i := i + 1;
    }
    assert computed.names[..i] == computed.names;
    assert ObsoleteAmong(computed, i) == DropsObsoleteEnvironment(computed);
  }

  /** Nothing BND adds for its own bookkeeping survives the filter, and any other header does with its value. */
  lemma ComputedHeadersKept(computed: Attributes, key: string)
    requires computed.Valid()
    ensures IsBndBookkeeping(key) ==> key !in KeptComputed(computed)
    ensures !IsBndBookkeeping(key) && key != RequireCapability && key in computed.values ==>
      KeptComputed(computed)[key] == computed.values[key]
    ensures DropsObsoleteEnvironment(computed) ==> RequireCapability !in KeptComputed(computed)
  {
  }

  /**
   * The headers processBndJar hands to processBundleJar: the descriptor as it
   * is under Argeo-Origin-NoMetadataGeneration, otherwise what BND computes
   * from BndProperties, filtered. `analyze` stands for BND's calcManifest.
   */
  method BndHeaders(fileProps: Properties, artifact: M2Artifact, analyze: Properties -> Attributes, origin: A2Origin)
    returns (r: Result<Properties, Failure>)
    requires forall p :: analyze(p).Valid()
    modifies origin
    ensures ArgeoOriginNoMetadataGeneration in fileProps && ParseBoolean(fileProps[ArgeoOriginNoMetadataGeneration]) ==>
      r == Success(fileProps) && origin.Changes() == old(origin.Changes())
    ensures !(ArgeoOriginNoMetadataGeneration in fileProps && ParseBoolean(fileProps[ArgeoOriginNoMetadataGeneration])) ==>
      match BndProperties(fileProps, artifact)
      case Failure(f) => r == Failure(f) && origin.Changes() == old(origin.Changes())
      case Success(props) => r == Success(KeptComputed(analyze(props)))
  {
    var noMetadata := ArgeoOriginNoMetadataGeneration in fileProps && ParseBoolean(fileProps[ArgeoOriginNoMetadataGeneration]);
    if noMetadata {
      return Success(fileProps);
    }
    match BndProperties(fileProps, artifact)
    case Failure(f) =>
      return Failure(f);
    case Success(props) =>
      var entries := FilterComputedHeaders(analyze(props), origin);
      return Success(entries);
  }
}
