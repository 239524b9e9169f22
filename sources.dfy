/**
 * Sources: the entries of a Maven "sources" jar copied next to (or into) the
 * bundle they document (processM2SourceJar), the entries of an Eclipse source
 * bundle (processEclipseSourceJar), and the Eclipse-SourceBundle header that
 * ties a separate source jar to its binary bundle (createSourceJar).
 */
module Sources {
  import opened Wrappers
  import opened JavaText
  import opened Identity
  import opened Headers
  import opened FileTree
  import opened Provenance
  import opened Merge

  /** Where the sources of a bundle go: "<bundleDir>.src" beside it, or OSGI-OPT/src inside it. */
  function SourceDir(bundleDir: string, separate: bool): string {
    if separate then Resolve(Parent(bundleDir), bundleDir + ".src") else Resolve(bundleDir, "OSGI-OPT/src")
  }

  /** For an absolute bundle directory, the separate source directory is its sibling "<bundleDir>.src". */
  lemma SeparateSourceDir(bundleDir: string)
    requires StartsWith(bundleDir, "/")
    ensures SourceDir(bundleDir, true) == bundleDir + ".src"
    ensures SourceDir(bundleDir, false) == bundleDir + "/OSGI-OPT/src"
  {
    assert (bundleDir + ".src")[..1] == bundleDir[..1];
    assert !StartsWith("OSGI-OPT/src", "/") by { assert "OSGI-OPT/src"[0] == 'O'; }
  }

  // ---------------------------------------------------------------- Maven sources

  /** How one Maven sources jar is imported. */
  datatype SourceImport = SourceImport(
    sourceDir: string,
    unmodified: bool,   // Argeo-Origin-Do-Not-Modify: nothing is dropped or relocated
    mergingMsg: string) // " of <artifact>" when the sources are merged into a larger bundle

  /** The suffix naming the artifact whose sources are merged, if any. */
  function MergingMessage(mergingFrom: Option<M2Artifact>): (r: string)
    ensures mergingFrom.None? <==> r == ""
  {
    match mergingFrom
    case None => ""
    case Some(a) => " of " + a.Describe()
  }

  /** Files.copy only when the target does not exist yet: the first copy wins. */
  function CopyIfAbsent(files: Files, target: string, content: seq<byte>): (r: Files)
    ensures target in r
    ensures target in files ==> r == files
    ensures target !in files ==> r == files[target := content]
  {
    if target in files then files else files[target := content]
  }

  /** The moved message for an absolute entry whose META-INF part becomes its relative path. */
  function RelocationMessage(relPath: string, name: string): string {
    " to " + relPath + " entry with absolute path " + name
  }

  /** An absolute entry with a META-INF part, in a sources jar that may be modified. */
  predicate IsRelocated(s: SourceImport, e: Entry) {
    !e.isDirectory && !s.unmodified && StartsWith(e.name, "/") && IndexOf(e.name, "META-INF") >= 0
  }

  /**
   * One entry of a sources jar, with the relocation of absolute META-INF
   * entries completed: the entry is copied under its relative path.
   */
  function SourceEntry(w: Work, s: SourceImport, e: Entry): Work {
    if e.isDirectory then w
    else if e.name == "META-INF/MANIFEST.MF" then
      w.(changes := w.changes.Deleted("MANIFEST.MF from the sources" + s.mergingMsg))
    else if !s.unmodified && StartsWith(e.name, "module-info.java") then
      w.(changes := w.changes.Deleted("Java module information from the sources (module-info.java)" + s.mergingMsg))
    else if !s.unmodified && StartsWith(e.name, "/") then
      var index := IndexOf(e.name, "META-INF");
      if index >= 0 then
        var relPath := e.name[index..];
        Work(CopyIfAbsent(w.files, Resolve(s.sourceDir, relPath), e.content), w.changes.Moved(RelocationMessage(relPath, e.name)))
      else w.(changes := w.changes.Deleted(e.name + " from the sources" + s.mergingMsg))
    else w.(files := CopyIfAbsent(w.files, Resolve(s.sourceDir, e.name), e.content))
  }

  /**
   * One entry AS WRITTEN: an absolute entry with a META-INF part gets its
   * relative path and its moved message, and the loop then continues before
   * reaching the copy, so the entry is lost.
   */
  function SourceEntryAsWritten(w: Work, s: SourceImport, e: Entry): Work {
    if IsRelocated(s, e) then
      var relPath := e.name[IndexOf(e.name, "META-INF")..];
      w.(changes := w.changes.Moved(RelocationMessage(relPath, e.name)))
    else SourceEntry(w, s, e)
  }

  function SourceEntries(w: Work, s: SourceImport, entries: seq<Entry>): Work
    decreases |entries|
  {
    if entries == [] then w else SourceEntries(SourceEntry(w, s, entries[0]), s, entries[1..])
  }

  /** The change sets once the loop is done: merged-in sources are announced as added. */
  function SourceChanges(c: ChangeSets, separate: bool): (r: ChangeSets)
    ensures c.Within(r)
    ensures !separate ==> !r.IsEmpty()
  {
    if separate then c else c.Added("source code under OSGI-OPT/src")
  }

  // ---------------------------------------------------------------- properties

  /** The manifest of a sources jar is never imported, whatever the mode. */
  lemma SourceManifestDropped(w: Work, s: SourceImport, e: Entry)
    requires !e.isDirectory && e.name == "META-INF/MANIFEST.MF"
    ensures SourceEntry(w, s, e) == w.(changes := w.changes.Deleted("MANIFEST.MF from the sources" + s.mergingMsg))
  {
  }

  /** Sources that may not be modified are copied as they are, manifest aside. */
  lemma UnmodifiedSourcesCopied(w: Work, s: SourceImport, e: Entry)
    requires s.unmodified && !e.isDirectory && e.name != "META-INF/MANIFEST.MF"
    ensures SourceEntry(w, s, e) == w.(files := CopyIfAbsent(w.files, Resolve(s.sourceDir, e.name), e.content))
  {
  }

  /** An absolute entry without a META-INF part is dropped, and named as deleted. */
  lemma AbsoluteEntryDropped(w: Work, s: SourceImport, e: Entry)
    requires !s.unmodified && !e.isDirectory && StartsWith(e.name, "/")
    requires forall j :: !OccursAt(e.name, "META-INF", j)
    ensures SourceEntry(w, s, e) == w.(changes := w.changes.Deleted(e.name + " from the sources" + s.mergingMsg))
  {
    assert e.name != "META-INF/MANIFEST.MF" && !StartsWith(e.name, "module-info.java") by {
      assert e.name[0] == '/';
    }
  }

  /**
   * An absolute entry with a META-INF part is recorded as moved to the
   * relative path starting at its first "META-INF", and, as corrected, is
   * copied there unless a file already is.
   */
  lemma RelocatedEntryCopied(w: Work, s: SourceImport, e: Entry)
    requires IsRelocated(s, e)
    ensures var relPath := e.name[IndexOf(e.name, "META-INF")..]; var o := SourceEntry(w, s, e);
      && StartsWith(relPath, "META-INF")
      && o.changes == w.changes.Moved(RelocationMessage(relPath, e.name))
      && Resolve(s.sourceDir, relPath) == s.sourceDir + "/" + relPath
      && o.files == CopyIfAbsent(w.files, s.sourceDir + "/" + relPath, e.content)
  {
    var index := IndexOf(e.name, "META-INF");
    var relPath := e.name[index..];
    assert StartsWith(relPath, "META-INF") by {
      assert OccursAt(e.name, "META-INF", index);
      assert relPath[..8] == e.name[index..index + 8];
    }
    assert !StartsWith(relPath, "/") by { assert relPath[0] == 'M'; }
    assert e.name != "META-INF/MANIFEST.MF" && !StartsWith(e.name, "module-info.java") by {
      assert e.name[0] == '/';
    }
    assert SourceEntry(w, s, e)
      == Work(CopyIfAbsent(w.files, Resolve(s.sourceDir, relPath), e.content), w.changes.Moved(RelocationMessage(relPath, e.name)));
  }

  /** As written, the relocated entry is announced as moved but never reaches the tree. */
  lemma RelocatedEntryLostAsWritten(w: Work, s: SourceImport, e: Entry)
    requires IsRelocated(s, e)
    ensures var relPath := e.name[IndexOf(e.name, "META-INF")..]; var o := SourceEntryAsWritten(w, s, e);
      && o.files == w.files
      && RelocationMessage(relPath, e.name) in o.changes.moved
      && (Resolve(s.sourceDir, relPath) !in w.files ==> Resolve(s.sourceDir, relPath) !in o.files)
  {
  }

  /**
   * The entries that show it, such as "/x/META-INF/NOTICE": an absolute path
   * whose first 'M' starts its META-INF part. As written the tree is left as
   * it was; corrected, META-INF/<rest> is under the source directory.
   */
  lemma RelocationCounterexample(w: Work, sourceDir: string, prefix: string, rest: string)
    requires prefix != [] && prefix[0] == '/' && 'M' !in prefix
    ensures var s := SourceImport(sourceDir, false, ""); var e := Entry(prefix + "META-INF" + rest, false, []);
      && IsRelocated(s, e)
      && SourceEntryAsWritten(w, s, e).files == w.files
      && sourceDir + "/" + ("META-INF" + rest) in SourceEntry(w, s, e).files
  {
    var s := SourceImport(sourceDir, false, "");
    var name := prefix + "META-INF" + rest;
    var e := Entry(name, false, []);
    IndexOfAfterPlainPrefix(prefix, "META-INF", rest);
    assert StartsWith(name, "/") by { assert name[0] == '/'; }
    assert name[|prefix|..] == "META-INF" + rest;
    RelocatedEntryCopied(w, s, e);
  }

  /** A file already in the tree keeps its content: sources never overwrite. */
  lemma {:induction false} SourcesKeepExisting(w: Work, s: SourceImport, entries: seq<Entry>)
    ensures var r := SourceEntries(w, s, entries);
      && w.changes.Within(r.changes)
      && forall p :: p in w.files ==> p in r.files && r.files[p] == w.files[p]
    decreases |entries|
  {
    if entries != [] {
      SourceEntryKeeps(w, s, entries[0]);
      SourcesKeepExisting(SourceEntry(w, s, entries[0]), s, entries[1..]);
    }
  }

  /** One entry keeps every file and every message. */
  lemma SourceEntryKeeps(w: Work, s: SourceImport, e: Entry)
    ensures var r := SourceEntry(w, s, e);
      && w.changes.Within(r.changes)
      && forall p :: p in w.files ==> p in r.files && r.files[p] == w.files[p]
  {
    if e.isDirectory || e.name == "META-INF/MANIFEST.MF" {
    } else if !s.unmodified && StartsWith(e.name, "module-info.java") {
    } else if !s.unmodified && StartsWith(e.name, "/") {
      var index := IndexOf(e.name, "META-INF");
      if index >= 0 {
        CopyKeeps(w.files, Resolve(s.sourceDir, e.name[index..]), e.content);
      }
    } else {
      CopyKeeps(w.files, Resolve(s.sourceDir, e.name), e.content);
    }
  }

  lemma CopyKeeps(files: Files, target: string, content: seq<byte>)
    ensures forall p :: p in files ==> p in CopyIfAbsent(files, target, content) && CopyIfAbsent(files, target, content)[p] == files[p]
  {
  }

  /** Sources that may be modified only ever land under the source directory. */
  lemma {:induction false} SourcesStayInSourceDir(w: Work, s: SourceImport, entries: seq<Entry>)
    requires !s.unmodified
    ensures var r := SourceEntries(w, s, entries);
      forall p :: p in r.files && p !in w.files ==> StartsWith(p, s.sourceDir + "/")
    decreases |entries|
  {
    if entries != [] {
      var e := entries[0];
      var w1 := SourceEntry(w, s, e);
      forall p | p in w1.files && p !in w.files
        ensures StartsWith(p, s.sourceDir + "/")
      {
        if IsRelocated(s, e) {
          RelocatedEntryCopied(w, s, e);
        } else {
          assert !StartsWith(e.name, "/");
        }
      }
      SourcesStayInSourceDir(w1, s, entries[1..]);
    }
  }

  // ---------------------------------------------------------------- the loop

  /** One turn of the entry loop of processM2SourceJar, on the tree and the A2Origin. */
  method ImportSourceEntry(tree: Tree, origin: A2Origin, s: SourceImport, e: Entry)
    modifies tree, origin
    ensures Work(tree.files, origin.Changes()) == SourceEntry(Work(old(tree.files), old(origin.Changes())), s, e)
  {
    var relPath := e.name;
    var skip := false;
    if e.isDirectory {
      skip := true;
    } else if e.name == "META-INF/MANIFEST.MF" {
      origin.deleted := origin.deleted + {"MANIFEST.MF from the sources" + s.mergingMsg};
      skip := true;
    } else if !s.unmodified {
      if StartsWith(e.name, "module-info.java") {
        origin.deleted := origin.deleted + {"Java module information from the sources (module-info.java)" + s.mergingMsg};
        skip := true;
      } else if StartsWith(e.name, "/") {
        var metaInfIndex := IndexOf(e.name, "META-INF");
        if metaInfIndex >= 0 {
          relPath := e.name[metaInfIndex..];
          origin.moved := origin.moved + {RelocationMessage(relPath, e.name)};
        } else {
          origin.deleted := origin.deleted + {e.name + " from the sources" + s.mergingMsg};
          skip := true;
        }
      }
    }
    if !skip {
      var target := Resolve(s.sourceDir, relPath);
      if target !in tree.files {
        tree.files := tree.files[target := e.content];
      }
    }
  }

  /**
   * processM2SourceJar: a fresh A2Origin gathers the messages of the entry
   * loop; the changes go to the source directory when the sources are
   * separate, and to the bundle otherwise, after an added message.
   */
  method ImportSourceJar(tree: Tree, bundleDir: string, separate: bool, unmodified: bool,
                         mergingFrom: Option<M2Artifact>, entries: seq<Entry>)
    modifies tree
    ensures var s := SourceImport(SourceDir(bundleDir, separate || unmodified), unmodified, MergingMessage(mergingFrom));
      var w := SourceEntries(Work(old(tree.files), NoChanges), s, entries);
      var c := SourceChanges(w.changes, separate || unmodified);
      var path := Resolve(if separate || unmodified then s.sourceDir else bundleDir, ChangesFile);
      if c.IsEmpty() then tree.files == w.files
      else exists text ::
        && IsChangesText(c, text)
        && tree.files == w.files[path := (if path in w.files then w.files[path] else []) + Utf8(text)]
  {
    var origin := new A2Origin();
    var sourceDir := SourceDir(bundleDir, separate || unmodified);
    var mergingMsg := MergingMessage(mergingFrom);
    var s := SourceImport(sourceDir, unmodified, mergingMsg);
    ghost var goal := SourceEntries(Work(tree.files, NoChanges), s, entries);
    var i := 0;
    while i < |entries|
      invariant 0 <= i <= |entries|
      invariant SourceEntries(Work(tree.files, origin.Changes()), s, entries[i..]) == goal
    {
      assert entries[i..][0] == entries[i] && entries[i..][1..] == entries[i + 1..];
      ImportSourceEntry(tree, origin, s, entries[i]);
      i := i + 1;
    }
    if separate || unmodified {
      origin.AppendChanges(tree, sourceDir);
    } else {
      origin.added := origin.added + {"source code under OSGI-OPT/src"};
      origin.AppendChanges(tree, bundleDir);
    }
  }

  // ---------------------------------------------------------------- Eclipse sources

  /** One entry of an Eclipse source bundle: META-INF is skipped, anything else must be new. */
  function EclipseSourceEntry(files: Files, sourceDir: string, e: Entry): (r: Result<Files, Failure>)
    ensures r.Failure? ==> r.error == FileAlreadyExists(Resolve(sourceDir, e.name))
    ensures r.Success? && (e.isDirectory || StartsWith(e.name, "META-INF")) ==> r.value == files
  {
    if e.isDirectory || StartsWith(e.name, "META-INF") then Success(files)
    else CopyNew(files, Resolve(sourceDir, e.name), e.content)
  }

  function EclipseSourceEntries(files: Files, sourceDir: string, entries: seq<Entry>): (r: (Files, Option<Failure>))
    decreases |entries|
  {
    if entries == [] then (files, None)
    else match EclipseSourceEntry(files, sourceDir, entries[0])
      case Failure(f) => (files, Some(f))
      case Success(next) => EclipseSourceEntries(next, sourceDir, entries[1..])
  }

  /** Copying an Eclipse source bundle either copies every entry or stops at the first one already present. */
  lemma {:induction false} EclipseSourcesCopied(files: Files, sourceDir: string, entries: seq<Entry>)
    ensures var (r, failure) := EclipseSourceEntries(files, sourceDir, entries);
      && files.Keys <= r.Keys
      && (forall p :: p in files ==> r[p] == files[p])
      && (failure.None? ==> forall i :: 0 <= i < |entries| && !entries[i].isDirectory && !StartsWith(entries[i].name, "META-INF") ==>
            Resolve(sourceDir, entries[i].name) in r)
    decreases |entries|
  {
    if entries != [] {
      var e := entries[0];
      match EclipseSourceEntry(files, sourceDir, e)
      case Failure(_) =>
      case Success(next) =>
        EclipseSourcesCopied(next, sourceDir, entries[1..]);
        var (r, failure) := EclipseSourceEntries(next, sourceDir, entries[1..]);
        if failure.None? {
          forall i | 0 <= i < |entries| && !entries[i].isDirectory && !StartsWith(entries[i].name, "META-INF")
            ensures Resolve(sourceDir, entries[i].name) in r
          {
            if i > 0 {
              assert entries[i] == entries[1..][i - 1];
            } else {
              assert Resolve(sourceDir, e.name) in next;
            }
          }
        }
    }
  }

  /**
   * processEclipseSourceJar after the manifest is read: the entry loop, then
   * the changes of a fresh A2Origin, which are empty when the sources are
   * separate and otherwise only the added message, written to the bundle.
   * An IOException in the loop is rethrown as an IllegalStateException and
   * nothing is written after it.
   */
  method CopyEclipseSources(tree: Tree, file: string, bundleDir: string, separate: bool, entries: seq<Entry>)
    returns (failure: Option<Failure>)
    modifies tree
    ensures var (files, f) := EclipseSourceEntries(old(tree.files), SourceDir(bundleDir, separate), entries);
      && (f.None? <==> failure.None?)
      && (f.Some? ==> failure == Some(IllegalState("Cannot process " + file)) && tree.files == files)
      && (f.None? && separate ==> tree.files == files)
      && (f.None? && !separate ==>
            var path := Resolve(bundleDir, ChangesFile);
            exists text ::
              && IsChangesText(NoChanges.Added("source code under OSGI-OPT/src"), text)
              && tree.files == files[path := (if path in files then files[path] else []) + Utf8(text)])
  {
    var origin := new A2Origin();
    var sourceDir := SourceDir(bundleDir, separate);
    ghost var goal := EclipseSourceEntries(tree.files, sourceDir, entries);
    var i := 0;
    while i < |entries|
      invariant 0 <= i <= |entries|
      invariant EclipseSourceEntries(tree.files, sourceDir, entries[i..]) == goal
      invariant origin.Changes() == NoChanges
    {
      var e := entries[i];
      assert entries[i..][0] == e && entries[i..][1..] == entries[i + 1..];
      if !e.isDirectory && !StartsWith(e.name, "META-INF") {
        var target := Resolve(sourceDir, e.name);
        if target in tree.files {
          return Some(IllegalState("Cannot process " + file));
        }
        tree.files := tree.files[target := e.content];
      }
      i := i + 1;
    }
    failure := None;
    assert entries[i..] == [];
    if separate {
      assert origin.Changes().IsEmpty();
      origin.AppendChanges(tree, sourceDir);
    } else {
      origin.added := origin.added + {"source code under OSGI-OPT/src"};
      assert origin.Changes() == NoChanges.Added("source code under OSGI-OPT/src");
      origin.AppendChanges(tree, bundleDir);
    }
  }

  // ---------------------------------------------------------------- Eclipse-SourceBundle

  const VersionAttribute: string := "version=\""

  /**
   * The main attributes of a separate source jar (createSourceJar): the
   * symbolic name without its directives plus ".src", the bundle version, and
   * Eclipse-SourceBundle naming the binary bundle. A missing symbolic name
   * fails on toString, one made only of ';' on the array access; a missing
   * version is stored as null, which reads back as absent.
   */
  function SourceManifest(bsn: Option<string>, version: Option<string>): (r: Result<Attributes, Failure>)
    ensures r.Success? <==> bsn.Some? && Split(bsn.value, ';') != []
    ensures r.Success? ==> r.value.Valid()
  {
    match bsn
    case None => Failure(NullPointer(BundleSymbolicName))
    case Some(b) =>
      var parts := Split(b, ';');
      if parts == [] then Failure(IndexOutOfBounds("Index 0 out of bounds for length 0"))
      else
        Success(SourceHeaders(parts[0], version))
  }

  /** The four headers of a source jar named after the binary bundle `name`. */
  function SourceHeaders(name: string, version: Option<string>): (r: Attributes)
    ensures r.Valid()
  {
    assert NoAttributes.Valid();
    var m := NoAttributes.Put(ManifestVersion, "1.0").Put(BundleSymbolicName, name + ".src");
    var m := if version.Some? then m.Put(BundleVersion, version.value) else m;
    m.Put(EclipseSourceBundle, name + ";" + VersionAttribute + JavaString(version) + "\"")
  }

  /**
   * The parse of Eclipse-SourceBundle in processEclipseSourceJar: the name is
   * the part before the first ';', and the version is the second part without
   * its first nine characters and its last one (neither is checked).
   */
  function ParseSourceBundle(header: Option<string>): (r: Result<NameVersion, Failure>)
    ensures r.Success? ==> ';' !in r.value.name && r.value.version.Some?
  {
    match header
    case None => Failure(NullPointer(EclipseSourceBundle))
    case Some(h) =>
      var parts := Split(h, ';');
      if |parts| < 2 then Failure(IndexOutOfBounds("Index 1 out of bounds for length " + if parts == [] then "0" else "1"))
      else if |parts[1]| < |VersionAttribute| + 1 then Failure(IndexOutOfBounds(parts[1]))
      else Success(NameVersion(parts[0], Some(parts[1][|VersionAttribute|..|parts[1]| - 1])))
  }

  /** The headers of a source jar, header by header. */
  lemma SourceManifestHeaders(bsn: string, version: Option<string>)
    requires Split(bsn, ';') != []
    ensures var name := Split(bsn, ';')[0]; var m := SourceManifest(Some(bsn), version);
      && m.Success?
      && m.value.Get(ManifestVersion) == Some("1.0")
      && m.value.Get(BundleSymbolicName) == Some(name + ".src")
      && m.value.Get(BundleVersion) == version
      && m.value.Get(EclipseSourceBundle) == Some(name + ";" + VersionAttribute + JavaString(version) + "\"")
  {
    SourceHeadersOf(Split(bsn, ';')[0], version);
  }

  lemma SourceHeadersOf(name: string, version: Option<string>)
    ensures var m := SourceHeaders(name, version);
      && m.Get(ManifestVersion) == Some("1.0")
      && m.Get(BundleSymbolicName) == Some(name + ".src")
      && m.Get(BundleVersion) == version
      && m.Get(EclipseSourceBundle) == Some(name + ";" + VersionAttribute + JavaString(version) + "\"")
  {
    assert NoAttributes.Valid();
    assert |ManifestVersion| == 16 && |BundleSymbolicName| == 19 && |BundleVersion| == 14 && |EclipseSourceBundle| == 20;
    var m1 := NoAttributes.Put(ManifestVersion, "1.0");
    var m2 := m1.Put(BundleSymbolicName, name + ".src");
    assert m2.Get(ManifestVersion) == Some("1.0");
    assert m2.Get(BundleVersion) == None;
    var m3 := if version.Some? then m2.Put(BundleVersion, version.value) else m2;
    assert m3.Get(ManifestVersion) == Some("1.0") && m3.Get(BundleSymbolicName) == Some(name + ".src");
    assert m3.Get(BundleVersion) == version;
  }

  /** The parse recovers a name and a version that hold no ';'. */
  lemma ParseSourceBundleOf(name: string, version: string)
    requires ';' !in name && ';' !in version
    ensures ParseSourceBundle(Some(name + ";" + VersionAttribute + version + "\"")) == Success(NameVersion(name, Some(version)))
  {
    var y := VersionAttribute + version + "\"";
    assert ';' !in y by {
      assert y == VersionAttribute + version + ['"'];
      assert ';' !in VersionAttribute;
    }
    assert name + ";" + VersionAttribute + version + "\"" == name + [';'] + y + "";
    SplitFirstTwo(name, ';', y, "");
    assert y[|VersionAttribute|..|y| - 1] == version;
  }

  /**
   * The round trip: the header written for a source jar parses back to the
   * binary bundle's name and version, and the source jar's own name and
   * version are those of the bundle.
   */
  lemma SourceBundleRoundTrip(bsn: string, version: string)
    requires Split(bsn, ';') != [] && ';' !in version
    ensures var name := Split(bsn, ';')[0]; var m := SourceManifest(Some(bsn), Some(version));
      && m.Success?
      && m.value.Get(BundleSymbolicName) == Some(name + ".src")
      && m.value.Get(BundleVersion) == Some(version)
      && ParseSourceBundle(m.value.Get(EclipseSourceBundle)) == Success(NameVersion(name, Some(version)))
  {
    SourceManifestHeaders(bsn, Some(version));
    ParseSourceBundleOf(Split(bsn, ';')[0], version);
  }

  /** Directives after the symbolic name are left out of the source jar's name. */
  lemma SourceNameWithoutDirectives(name: string, directives: string, version: Option<string>)
    requires name != "" && ';' !in name
    ensures var m := SourceManifest(Some(name + ";" + directives), version);
      m.Success? && m.value.Get(BundleSymbolicName) == Some(name + ".src")
  {
    var b := name + ";" + directives;
    assert b == name + [';'] + directives;
    PiecesJoin(name, ';', directives);
    PiecesPlain(name, ';');
    DropTrailingKeeps([name] + Pieces(directives, ';'), 0);
    assert Split(b, ';')[0] == name;
  }

  /**
   * Where processEclipseSourceJar puts the sources it reads: the bundle
   * directory targetBase/<name>.<branch> of the bundle named by the header.
   */
  function EclipseSourceBundleDir(targetBase: string, header: Option<string>): (r: Result<string, Failure>)
    ensures r.Success? ==> ParseSourceBundle(header).Success? && Branch(ParseSourceBundle(header).value.version).Success?
  {
    match ParseSourceBundle(header)
    case Failure(f) => Failure(f)
    case Success(nv) =>
      match Branch(nv.version)
      case Failure(f) => Failure(f)
      case Success(branch) => Success(Resolve(targetBase, nv.name + "." + branch))
  }

  lemma EclipseSourceBundleDirOf(targetBase: string, header: string, name: string, branch: string)
    requires ParseSourceBundle(Some(header)).Success? && ParseSourceBundle(Some(header)).value.name == name
    requires Branch(ParseSourceBundle(Some(header)).value.version) == Success(branch)
    requires name != "" && name[0] != '/'
    ensures EclipseSourceBundleDir(targetBase, Some(header)) == Success(targetBase + "/" + name + "." + branch)
  {
    var dirName := name + "." + branch;
    assert !StartsWith(dirName, "/") by { assert dirName[0] == name[0]; }
    assert Resolve(targetBase, dirName) == targetBase + "/" + name + "." + branch;
  }

  /**
   * A separate source jar written for a bundle whose version has a branch is
   * read back into the directory <name>.<branch> of that very bundle.
   */
  lemma SourceJarFindsItsBundle(targetBase: string, name: string, version: string, branch: string)
    requires ';' !in name && name != "" && '/' != name[0] && ';' !in version
    requires Branch(Some(version)) == Success(branch)
    ensures SourceManifest(Some(name), Some(version)).Success?
    ensures EclipseSourceBundleDir(targetBase, SourceManifest(Some(name), Some(version)).value.Get(EclipseSourceBundle))
      == Success(targetBase + "/" + name + "." + branch)
  {
    PiecesPlain(name, ';');
    assert Split(name, ';') == [name];
    var header := name + ";" + VersionAttribute + version + "\"";
    SourceManifestHeaders(name, Some(version));
    ParseSourceBundleOf(name, version);
    EclipseSourceBundleDirOf(targetBase, header, name, branch);
  }
}
