/**
 * Merging several Maven artifacts into one bundle directory (mergeM2Artifacts):
 * each binary jar is read entry by entry, and each entry is dropped, saved
 * under ARGEO-ORIGIN, copied, appended to an existing service file, skipped,
 * or makes the whole merge fail.
 */
module Merge {
  import opened Wrappers
  import opened JavaText
  import opened Identity
  import opened FileTree
  import opened Provenance

  type Files = map<string, seq<byte>>

  /** The working tree and the change sets, as the merge leaves them. */
  datatype Work = Work(files: Files, changes: ChangeSets)

  /** The result of a loop that stops at the first exception: what it wrote so far, and the exception. */
  datatype Outcome = Outcome(work: Work, failure: Option<Failure>)

  // ---------------------------------------------------------------- the entry policy

  predicate IsSignature(name: string) {
    EndsWith(name, ".RSA") || EndsWith(name, ".DSA") || EndsWith(name, ".SF")
  }

  /** Notices, licenses and copying conditions, which are kept apart under ARGEO-ORIGIN. */
  predicate IsLegal(name: string) {
    || EndsWith(name, "NOTICE") || EndsWith(name, "NOTICE.txt") || EndsWith(name, "NOTICE.md")
    || EndsWith(name, "LICENSE") || EndsWith(name, "LICENSE.md") || EndsWith(name, "LICENSE-notice.md")
    || EndsWith(name, "COPYING") || EndsWith(name, "COPYING.LESSER")
  }

  /**
   * Why the merge drops an entry, if it does; the deleted message is this
   * reason followed by " from <artifact>".
   */
  function DropReason(name: string): Option<string> {
    if IsSignature(name) then Some("cryptographic signatures")
    else if EndsWith(name, "module-info.class") then Some("Java module information (module-info.class)")
    else if StartsWith(name, "META-INF/versions/") then Some("additional Java versions (META-INF/versions)")
    else if StartsWith(name, "META-INF/maven/") then Some("Maven information (META-INF/maven)")
    else if StartsWith(name, ".cache/") then Some("cache directory (.cache)")
    else if name == "META-INF/DEPENDENCIES" then Some("Dependencies (META-INF/DEPENDENCIES)")
    else None
  }

  /** bundleDir/ARGEO-ORIGIN/<group>/<artifact>: where the origin files of one merged artifact go. */
  function OriginDir(bundleDir: string, artifact: M2Artifact): string {
    Resolve(Resolve(Resolve(bundleDir, ArgeoOrigin), artifact.groupId), artifact.artifactId)
  }

  /**
   * The original manifest of a merged artifact, AS WRITTEN: newOutputStream
   * creates (or truncates) the file, and Files.copy without REPLACE_EXISTING
   * into that now existing file then throws FileAlreadyExistsException.
   */
  function SaveOriginalManifestAsWritten(files: Files, path: string, content: seq<byte>): (r: Result<Files, Failure>)
  {
    var created := files[path := []];
    if path in created then Failure(FileAlreadyExists(path)) else Success(created[path := content])
  }

  /** Whatever the tree, the as-written save of a merged artifact's manifest fails. */
  lemma OriginalManifestNeverSaved(files: Files, path: string, content: seq<byte>)
    ensures SaveOriginalManifestAsWritten(files, path, content) == Failure(FileAlreadyExists(path))
  {
  }

  /** The original manifest of a merged artifact, as intended: written (replacing any previous copy). */
  function SaveOriginalManifest(files: Files, path: string, content: seq<byte>): (r: Files)
    ensures path in r && r[path] == content
    ensures forall p :: p != path ==> (p in r <==> p in files) && (p in files ==> r[p] == files[p])
  {
    files[path := content]
  }

  /** Files.copy(in, target) without options: fails when the target exists. */
  function CopyNew(files: Files, target: string, content: seq<byte>): (r: Result<Files, Failure>)
    ensures target in files <==> r.Failure?
    ensures r.Failure? ==> r.error == FileAlreadyExists(target)
    ensures r.Success? ==> r.value == files[target := content]
  {
    if target in files then Failure(FileAlreadyExists(target)) else Success(files[target := content])
  }

  /** Batik classes and extra notices that several artifacts share: a second copy is skipped. */
  predicate SkippedWhenPresent(name: string) {
    StartsWith(name, "org/apache/batik/") || StartsWith(name, "META-INF/NOTICE")
  }

  /** The path an entry is written to when it is not dropped. */
  function MergeTarget(bundleDir: string, artifact: M2Artifact, name: string): string {
    if name == "META-INF/MANIFEST.MF" then Resolve(OriginDir(bundleDir, artifact), "MANIFEST.MF")
    else if IsLegal(name) then Resolve(OriginDir(bundleDir, artifact), name)
    else Resolve(bundleDir, name)
  }

  /** One entry of a merged artifact's binary jar. */
  function MergeEntry(w: Work, bundleDir: string, artifact: M2Artifact, e: Entry): (o: Outcome)
  {
    var art := artifact.Describe();
    var target := MergeTarget(bundleDir, artifact, e.name);
    if e.isDirectory then Outcome(w, None)
    else if DropReason(e.name).Some? then Outcome(w.(changes := w.changes.Deleted(DropReason(e.name).value + " from " + art)), None)
    else if e.name == "META-INF/MANIFEST.MF" then
      Outcome(Work(SaveOriginalManifest(w.files, target, e.content),
                   w.changes.Added("original MANIFEST (" + Relativize(bundleDir, target) + ") from " + art)), None)
    else if IsLegal(e.name) then
      match CopyNew(w.files, target, e.content)
      case Failure(f) => Outcome(w, Some(f))
      case Success(files) =>
        Outcome(Work(files, w.changes.Moved(e.name + " in " + art + " to " + Relativize(bundleDir, target))), None)
    else if target !in w.files then Outcome(w.(files := w.files[target := e.content]), None)
    else if StartsWith(e.name, "META-INF/services/") then
      Outcome(Work(w.files[target := w.files[target] + [10 as byte] + e.content],
                   w.changes.Modified(e.name + ", merging from " + art)), None)
    else if SkippedWhenPresent(e.name) then Outcome(w, None)
    else Outcome(w, Some(IllegalState("File " + target + " from " + art + " already exists")))
  }

  /** The entries in order, stopping at the first failure. */
  function MergeEntries(w: Work, bundleDir: string, artifact: M2Artifact, entries: seq<Entry>): (o: Outcome)
    decreases |entries|
  {
    if entries == [] then Outcome(w, None)
    else
      var o := MergeEntry(w, bundleDir, artifact, entries[0]);
      if o.failure.Some? then o else MergeEntries(o.work, bundleDir, artifact, entries[1..])
  }

  /** One whole artifact: its entries, then "binary content of <artifact>" when all of them went through. */
  function MergeArtifact(w: Work, bundleDir: string, artifact: M2Artifact, entries: seq<Entry>): (o: Outcome)
  {
    var o := MergeEntries(w, bundleDir, artifact, entries);
    if o.failure.Some? then o
    else Outcome(o.work.(changes := o.work.changes.Added("binary content of " + artifact.Describe())), None)
  }

  // ---------------------------------------------------------------- properties

  /** Entries the merge drops, recording them as deleted. */
  predicate Dropped(name: string) {
    DropReason(name).Some?
  }

  /** Entries whose content may end up in the tree, at MergeTarget. */
  predicate Written(e: Entry) {
    !e.isDirectory && !Dropped(e.name)
  }

  /**
   * What one entry does to the tree: existing files are never removed; a file
   * changes only at the entry's own target, and an existing one only grows, by
   * a newline and the entry's content, when it is a service file; a dropped or
   * directory entry changes nothing; the change sets only grow.
   */
  lemma MergeEntryEffect(w: Work, bundleDir: string, artifact: M2Artifact, e: Entry)
    ensures var o := MergeEntry(w, bundleDir, artifact, e); var t := MergeTarget(bundleDir, artifact, e.name);
      && w.changes.Within(o.work.changes)
      && w.files.Keys <= o.work.files.Keys
      && (!Written(e) ==> o.work.files == w.files && o.failure.None?)
      && (forall p :: p in o.work.files && p != t ==> p in w.files && o.work.files[p] == w.files[p])
      && (t in w.files && t in o.work.files && o.work.files[t] != w.files[t] ==>
            e.name == "META-INF/MANIFEST.MF"
            || (StartsWith(e.name, "META-INF/services/") && o.work.files[t] == w.files[t] + [10 as byte] + e.content))
      && (e.isDirectory ==> o == Outcome(w, None))
      && (!e.isDirectory && Dropped(e.name) ==>
            o == Outcome(w.(changes := w.changes.Deleted(DropReason(e.name).value + " from " + artifact.Describe())), None))
      && (Written(e) && !IsLegal(e.name) && SkippedWhenPresent(e.name) && Resolve(bundleDir, e.name) in w.files ==>
            o == Outcome(w, None))
  {
    MergeEntryFrame(w, bundleDir, artifact, e);
    if !Written(e) {
      NotWrittenRecorded(w, bundleDir, artifact, e);
    } else if !IsLegal(e.name) && SkippedWhenPresent(e.name) && Resolve(bundleDir, e.name) in w.files {
      DuplicateSkipped(w, bundleDir, artifact, e);
    }
  }

  /** The frame part of MergeEntryEffect: what can change in the tree and the records. */
  lemma MergeEntryFrame(w: Work, bundleDir: string, artifact: M2Artifact, e: Entry)
    ensures var o := MergeEntry(w, bundleDir, artifact, e); var t := MergeTarget(bundleDir, artifact, e.name);
      && w.changes.Within(o.work.changes)
      && w.files.Keys <= o.work.files.Keys
      && (!Written(e) ==> o.work.files == w.files && o.failure.None?)
      && (forall p :: p in o.work.files && p != t ==> p in w.files && o.work.files[p] == w.files[p])
      && (t in w.files && t in o.work.files && o.work.files[t] != w.files[t] ==>
            e.name == "META-INF/MANIFEST.MF"
            || (StartsWith(e.name, "META-INF/services/") && o.work.files[t] == w.files[t] + [10 as byte] + e.content))
  {
    MergeEntryChanges(w, bundleDir, artifact, e);
    MergeEntryFiles(w, bundleDir, artifact, e);
    var files := MergeEntry(w, bundleDir, artifact, e).work.files;
    var t := MergeTarget(bundleDir, artifact, e.name);
    if files == w.files {
    } else if files == w.files[t := e.content] {
    } else {
      assert files == w.files[t := w.files[t] + [10 as byte] + e.content];
    }
  }

  /** A directory entry does nothing; a dropped one only adds its deleted record. */
  lemma NotWrittenRecorded(w: Work, bundleDir: string, artifact: M2Artifact, e: Entry)
    requires !Written(e)
    ensures e.isDirectory ==> MergeEntry(w, bundleDir, artifact, e) == Outcome(w, None)
    ensures !e.isDirectory ==>
      MergeEntry(w, bundleDir, artifact, e)
        == Outcome(w.(changes := w.changes.Deleted(DropReason(e.name).value + " from " + artifact.Describe())), None)
  {
  }

  /** The change sets of one entry only grow. */
  lemma MergeEntryChanges(w: Work, bundleDir: string, artifact: M2Artifact, e: Entry)
    ensures w.changes.Within(MergeEntry(w, bundleDir, artifact, e).work.changes)
  {
    var c := MergeEntry(w, bundleDir, artifact, e).work.changes;
    assert c == w.changes || exists m :: c in {w.changes.Added(m), w.changes.Moved(m), w.changes.Modified(m), w.changes.Deleted(m)};
  }

  /** The files after one entry: the tree as it was, with at most the entry's target written. */
  lemma MergeEntryFiles(w: Work, bundleDir: string, artifact: M2Artifact, e: Entry)
    ensures var o := MergeEntry(w, bundleDir, artifact, e); var t := MergeTarget(bundleDir, artifact, e.name);
      && (!Written(e) ==> o.work.files == w.files && o.failure.None?)
      && (o.work.files == w.files || o.work.files == w.files[t := e.content]
          || (t in w.files && StartsWith(e.name, "META-INF/services/") && o.work.files == w.files[t := w.files[t] + [10 as byte] + e.content]))
      && (t in w.files && o.work.files[t] != w.files[t] ==>
            e.name == "META-INF/MANIFEST.MF" || StartsWith(e.name, "META-INF/services/"))
  {
    var files := MergeEntry(w, bundleDir, artifact, e).work.files;
    var t := MergeTarget(bundleDir, artifact, e.name);
    if e.isDirectory || Dropped(e.name) {
      assert files == w.files;
    } else if e.name == "META-INF/MANIFEST.MF" {
      assert files == w.files[t := e.content];
    } else if IsLegal(e.name) {
      assert CopyNew(w.files, t, e.content).Success? ==> files == w.files[t := e.content];
    } else if t !in w.files {
      assert files == w.files[t := e.content];
    } else if !StartsWith(e.name, "META-INF/services/") {
      assert files == w.files;
    }
  }

  /** An entry whose name is already taken in the bundle and is not mergeable makes the merge fail. */
  lemma DuplicateEntryFails(w: Work, bundleDir: string, artifact: M2Artifact, e: Entry)
    requires Written(e) && e.name != "META-INF/MANIFEST.MF" && !IsLegal(e.name)
    requires Resolve(bundleDir, e.name) in w.files
    requires !StartsWith(e.name, "META-INF/services/") && !StartsWith(e.name, "org/apache/batik/")
    requires !StartsWith(e.name, "META-INF/NOTICE")
    ensures MergeEntry(w, bundleDir, artifact, e).failure
      == Some(IllegalState("File " + Resolve(bundleDir, e.name) + " from " + artifact.Describe() + " already exists"))
  {
  }

  /** A service file present in several artifacts is concatenated, with a newline between the parts. */
  lemma ServiceFilesAppend(w: Work, bundleDir: string, artifact: M2Artifact, e: Entry)
    requires Written(e) && StartsWith(e.name, "META-INF/services/") && !IsLegal(e.name)
    requires Resolve(bundleDir, e.name) in w.files
    ensures var o := MergeEntry(w, bundleDir, artifact, e);
      && o.failure.None?
      && o.work.files[Resolve(bundleDir, e.name)] == w.files[Resolve(bundleDir, e.name)] + [10 as byte] + e.content
      && e.name + ", merging from " + artifact.Describe() in o.work.changes.modified
  {
    ServiceIsNotManifest(e.name);
  }

  lemma ServiceIsNotManifest(name: string)
    requires StartsWith(name, "META-INF/services/")
    ensures name != "META-INF/MANIFEST.MF"
  {
    assert name[..18][9] == 's';
  }

  /**
   * Over a whole jar: no file is removed, every file that appears or changes
   * is the target of a written entry, and no message is lost.
   */
  lemma {:induction false} MergeEntriesEffect(w: Work, bundleDir: string, artifact: M2Artifact, entries: seq<Entry>)
    ensures var o := MergeEntries(w, bundleDir, artifact, entries);
      && w.changes.Within(o.work.changes)
      && w.files.Keys <= o.work.files.Keys
      && forall p :: p in o.work.files && (p !in w.files || o.work.files[p] != w.files[p]) ==>
           exists i :: 0 <= i < |entries| && Written(entries[i]) && p == MergeTarget(bundleDir, artifact, entries[i].name)
    decreases |entries|
  {
    if entries != [] {
      var o1 := MergeEntry(w, bundleDir, artifact, entries[0]);
      MergeEntryEffect(w, bundleDir, artifact, entries[0]);
      if o1.failure.None? {
        var o := MergeEntries(o1.work, bundleDir, artifact, entries[1..]);
        MergeEntriesEffect(o1.work, bundleDir, artifact, entries[1..]);
        forall p | p in o.work.files && (p !in w.files || o.work.files[p] != w.files[p])
          ensures exists i :: 0 <= i < |entries| && Written(entries[i]) && p == MergeTarget(bundleDir, artifact, entries[i].name)
        {
          if p in o1.work.files && (p !in w.files || o1.work.files[p] != w.files[p]) {
            assert Written(entries[0]) && p == MergeTarget(bundleDir, artifact, entries[0].name);
          } else {
            var i :| 0 <= i < |entries[1..]| && Written(entries[1..][i]) && p == MergeTarget(bundleDir, artifact, entries[1..][i].name);
            assert entries[1..][i] == entries[i + 1];
          }
        }
      } else {
        forall p | p in o1.work.files && (p !in w.files || o1.work.files[p] != w.files[p])
          ensures exists i :: 0 <= i < |entries| && Written(entries[i]) && p == MergeTarget(bundleDir, artifact, entries[i].name)
        {
          assert Written(entries[0]);
        }
      }
    }
  }

  /**
   * Legal files never reach the bundle root: they are copied under
   * ARGEO-ORIGIN/<group>/<artifact>, with a moved record giving that path
   * relative to the bundle, and a second copy of one fails.
   */
  lemma LegalFilesKeptApart(w: Work, bundleDir: string, artifact: M2Artifact, e: Entry)
    requires !e.isDirectory && !Dropped(e.name) && IsLegal(e.name) && !StartsWith(e.name, "/")
    requires !StartsWith(artifact.groupId, "/") && !StartsWith(artifact.artifactId, "/")
    ensures var t := MergeTarget(bundleDir, artifact, e.name);
      var rel := ArgeoOrigin + "/" + artifact.groupId + "/" + artifact.artifactId + "/" + e.name;
      var o := MergeEntry(w, bundleDir, artifact, e);
      && t == bundleDir + "/" + rel
      && StartsWith(t, Resolve(bundleDir, ArgeoOrigin) + "/")
      && (t !in w.files ==>
            o == Outcome(Work(w.files[t := e.content], w.changes.Moved(e.name + " in " + artifact.Describe() + " to " + rel)), None))
      && (t in w.files ==> o == Outcome(w, Some(FileAlreadyExists(t))))
  {
    LegalEntryOutcome(w, bundleDir, artifact, e);
    LegalTargetPath(bundleDir, artifact, e.name);
  }

  /** What MergeEntry does with a legal file, before the paths are worked out. */
  lemma LegalEntryOutcome(w: Work, bundleDir: string, artifact: M2Artifact, e: Entry)
    requires !e.isDirectory && !Dropped(e.name) && IsLegal(e.name)
    ensures var t := Resolve(OriginDir(bundleDir, artifact), e.name);
      && MergeTarget(bundleDir, artifact, e.name) == t
      && MergeEntry(w, bundleDir, artifact, e)
         == if t in w.files then Outcome(w, Some(FileAlreadyExists(t)))
            else Outcome(Work(w.files[t := e.content], w.changes.Moved(e.name + " in " + artifact.Describe() + " to " + Relativize(bundleDir, t))), None)
  {
    LegalIsNotManifest(e.name);
  }

  /** The origin directory of a legal file, absolute and relative to the bundle. */
  lemma LegalTargetPath(bundleDir: string, artifact: M2Artifact, name: string)
    requires !StartsWith(name, "/") && !StartsWith(artifact.groupId, "/") && !StartsWith(artifact.artifactId, "/")
    ensures var rel := ArgeoOrigin + "/" + artifact.groupId + "/" + artifact.artifactId + "/" + name;
      var t := Resolve(OriginDir(bundleDir, artifact), name);
      && t == bundleDir + "/" + rel
      && Relativize(bundleDir, t) == rel
      && StartsWith(t, Resolve(bundleDir, ArgeoOrigin) + "/")
  {
    OriginPath(bundleDir, artifact, name);
    var base := Resolve(bundleDir, ArgeoOrigin);
    var t := Resolve(OriginDir(bundleDir, artifact), name);
    var rel := ArgeoOrigin + "/" + artifact.groupId + "/" + artifact.artifactId + "/" + name;
    assert t[..|base + "/"|] == base + "/";
    assert !StartsWith(rel, "/") by { assert rel[0] == ArgeoOrigin[0]; }
    RelativizeResolve(bundleDir, rel);
  }

  lemma OriginPath(bundleDir: string, artifact: M2Artifact, name: string)
    requires !StartsWith(name, "/") && !StartsWith(artifact.groupId, "/") && !StartsWith(artifact.artifactId, "/")
    ensures var t := Resolve(OriginDir(bundleDir, artifact), name);
      && t == Resolve(bundleDir, ArgeoOrigin) + "/" + (artifact.groupId + "/" + artifact.artifactId + "/" + name)
      && t == bundleDir + "/" + (ArgeoOrigin + "/" + artifact.groupId + "/" + artifact.artifactId + "/" + name)
  {
    assert !StartsWith(ArgeoOrigin, "/") by { assert ArgeoOrigin[0] != '/'; }
    JoinedPath(bundleDir, ArgeoOrigin, artifact.groupId, artifact.artifactId, name);
  }

  /** Four relative components resolved one after the other under a directory. */
  lemma JoinedPath(dir: string, a: string, b: string, c: string, d: string)
    requires !StartsWith(a, "/") && !StartsWith(b, "/") && !StartsWith(c, "/") && !StartsWith(d, "/")
    ensures var t := Resolve(Resolve(Resolve(Resolve(dir, a), b), c), d);
      && t == Resolve(dir, a) + "/" + (b + "/" + c + "/" + d)
      && t == dir + "/" + (a + "/" + b + "/" + c + "/" + d)
  {
  }

  lemma LegalIsNotManifest(name: string)
    requires IsLegal(name)
    ensures name != "META-INF/MANIFEST.MF"
  {
  }

  /**
   * A batik class or a META-INF/NOTICE* file already in the bundle is
   * skipped: no failure, no file and no message changes.
   */
  lemma DuplicateSkipped(w: Work, bundleDir: string, artifact: M2Artifact, e: Entry)
    requires Written(e) && !IsLegal(e.name)
    requires SkippedWhenPresent(e.name)
    requires Resolve(bundleDir, e.name) in w.files
    ensures MergeEntry(w, bundleDir, artifact, e) == Outcome(w, None)
  {
    SkippedIsPlain(e.name);
    assert MergeTarget(bundleDir, artifact, e.name) == Resolve(bundleDir, e.name);
  }

  lemma SkippedIsPlain(name: string)
    requires SkippedWhenPresent(name)
    ensures name != "META-INF/MANIFEST.MF" && !StartsWith(name, "META-INF/services/")
  {
    if StartsWith(name, "org/apache/batik/") {
      assert name[..17][0] == 'o';
    } else {
      assert name[..15][9] == 'N';
    }
  }

  // ---------------------------------------------------------------- the loop

  /** The loop over one artifact's binary entries, on the working tree and the origin record. */
  method MergeJar(tree: Tree, origin: A2Origin, bundleDir: string, artifact: M2Artifact, entries: seq<Entry>)
    returns (failure: Option<Failure>)
    modifies tree, origin
    ensures var o := MergeArtifact(Work(old(tree.files), old(origin.Changes())), bundleDir, artifact, entries);
      tree.files == o.work.files && origin.Changes() == o.work.changes && failure == o.failure
  {
    ghost var goal := MergeEntries(Work(tree.files, origin.Changes()), bundleDir, artifact, entries);
    var art := artifact.Describe();
    var i := 0;
    failure := None;
    while i < |entries|
      invariant 0 <= i <= |entries|
      invariant MergeEntries(Work(tree.files, origin.Changes()), bundleDir, artifact, entries[i..]) == goal
    {
      var e := entries[i];
      assert entries[i..][0] == e && entries[i..][1..] == entries[i + 1..];
      ghost var step := MergeEntry(Work(tree.files, origin.Changes()), bundleDir, artifact, e);
      if e.isDirectory {
      } else if DropReason(e.name).Some? {
        origin.deleted := origin.deleted + {DropReason(e.name).value + " from " + art};
      } else if e.name == "META-INF/MANIFEST.MF" {
        var originalManifest := Resolve(OriginDir(bundleDir, artifact), "MANIFEST.MF");
        tree.files := tree.files[originalManifest := e.content];
        origin.added := origin.added + {"original MANIFEST (" + Relativize(bundleDir, originalManifest) + ") from " + art};
      } else if IsLegal(e.name) {
        var target := Resolve(OriginDir(bundleDir, artifact), e.name);
        if target in tree.files {
          return Some(FileAlreadyExists(target));
        }
        tree.files := tree.files[target := e.content];
        origin.moved := origin.moved + {e.name + " in " + art + " to " + Relativize(bundleDir, target)};
      } else {
        var target := Resolve(bundleDir, e.name);
        if target !in tree.files {
          tree.files := tree.files[target := e.content];
        } else if StartsWith(e.name, "META-INF/services/") {
          tree.files := tree.files[target := tree.files[target] + [10 as byte] + e.content];
          origin.modified := origin.modified + {e.name + ", merging from " + art};
        } else if StartsWith(e.name, "org/apache/batik/") {
        } else if StartsWith(e.name, "META-INF/NOTICE") {
        } else {
          return Some(IllegalState("File " + target + " from " + art + " already exists"));
        }
      }
      assert Work(tree.files, origin.Changes()) == step.work;
      i := i + 1;
    }
    origin.added := origin.added + {"binary content of " + art};
  }
}
